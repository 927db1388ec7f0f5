/** The DNS client on top of the socket layer. */
module DnsClient {
  import opened Words
  import opened Framing
  import R = Registers
  import opened Driver
  import opened Sockets
  import opened DnsNames
  import opened DnsCache
  import opened DnsMessages
  import C = Chip
  import Crc16
  import Rings

  const PORT: u16 := 53

  /** Until the 64-bit clock wraps, the cache has been used on one that never runs backwards. */
  ghost predicate Punctual(ops: seq<Op>, clock: nat) {
    clock < U64 ==> Ordered(ops) && forall op | op in ops :: op.now <= clock
  }

  lemma PunctualNext(ops: seq<Op>, clock: nat, op: Op, at: nat)
    requires Punctual(ops, clock) && clock <= at && op.now == Wrap64(at)
    ensures Punctual(ops + [op], at)
  {
    if at < U64 {
      assert forall k | 0 <= k < |ops| :: ops[k] in ops;
    }
  }

  /** The operations a stretch of the script leads to, packet after packet. */
  function OpsBetween(script: seq<Datagram>, a: nat, b: nat, ats: seq<nat>): seq<Op>
    requires a <= b <= |script| && |ats| == b - a
    requires forall d | d in script :: Safe(d.payload)
    decreases b
  {
    if a == b then [] else
    OpsBetween(script, a, b - 1, ats[..|ats| - 1]) + OpsOf(script[b - 1].payload, Wrap64(ats[|ats| - 1]))
  }

  lemma OpsNext(script: seq<Datagram>, a: nat, b: nat, ats: seq<nat>, at: nat)
    requires a <= b < |script| && |ats| == b - a
    requires forall d | d in script :: Safe(d.payload)
    ensures OpsBetween(script, a, b + 1, ats + [at])
      == OpsBetween(script, a, b, ats) + OpsOf(script[b].payload, Wrap64(at))
  {
    assert (ats + [at])[..|ats|] == ats;
  }

  /** A response that the scan reads to its first address. */
  ghost predicate Answers(p: seq<byte>, r: Response, ip: Ipv4, ttl: u32) {
    && r.Valid() && Straight(r.answers) && p == r.Bytes() && |p| <= 256
    && AddressIn(r.answers) == Found(ip, ttl)
  }

  /** The address of such a response is in the cache's operations from `n` on, under the response's id. */
  ghost predicate Cached(ops: seq<Op>, n: nat, r: Response, ip: Ipv4, ttl: u32, from: nat, to: nat) {
    exists k, at: nat ::
      && n <= k < |ops| && from <= at <= to
      && ops[k] == Store(Wrap64(at), r.id, ip, ExpiryOf(Wrap64(at), ttl))
  }

  /** Every such response among the datagrams from `a` to `b` has had its address stored. */
  ghost predicate AllCached(script: seq<Datagram>, a: nat, b: nat, ops: seq<Op>, n: nat, from: nat, to: nat)
    requires b <= |script|
  {
    forall j, r, ip, ttl | a <= j < b && Answers(script[j].payload, r, ip, ttl) :: Cached(ops, n, r, ip, ttl, from, to)
  }

  lemma AnswerCached(p: seq<byte>, r: Response, ip: Ipv4, ttl: u32, ops: seq<Op>, n: nat, at: nat, from: nat, to: nat)
    requires Answers(p, r, ip, ttl) && from <= at <= to && n <= |ops| && Safe(p)
    ensures Cached(ops + OpsOf(p, Wrap64(at)), n, r, ip, ttl, from, to)
  {
    ResponseStored(r, Wrap64(at));
    hide OpsOf, Safe, Response.Bytes, Response.Valid, Straight, AddressIn, Wrap64, ExpiryOf;
    var now := Wrap64(at);
    assert OpsOf(p, now) == [Store(now, r.id, ip, ExpiryOf(now, ttl))];
    assert (ops + OpsOf(p, now))[|ops|] == Store(now, r.id, ip, ExpiryOf(now, ttl));
  }

  lemma CachedLonger(ops: seq<Op>, more: seq<Op>, n: nat, r: Response, ip: Ipv4, ttl: u32,
                     from: nat, to: nat, to': nat)
    requires Cached(ops, n, r, ip, ttl, from, to) && to <= to'
    ensures Cached(ops + more, n, r, ip, ttl, from, to')
  {
    hide Wrap64, ExpiryOf;
    var k, at: nat :|
      && n <= k < |ops| && from <= at <= to
      && ops[k] == Store(Wrap64(at), r.id, ip, ExpiryOf(Wrap64(at), ttl));
    assert (ops + more)[k] == ops[k];
  }

  /** One more datagram taken. */
  lemma AllCachedNext(script: seq<Datagram>, a: nat, b: nat, ops: seq<Op>, n: nat,
                      from: nat, to: nat, at: nat, to': nat)
    requires a <= b < |script| && from <= to <= at <= to' && n <= |ops| && Safe(script[b].payload)
    requires AllCached(script, a, b, ops, n, from, to)
    ensures AllCached(script, a, b + 1, ops + OpsOf(script[b].payload, Wrap64(at)), n, from, to')
  {
    hide Answers, Cached, OpsOf, Safe, Wrap64;
    var more := OpsOf(script[b].payload, Wrap64(at));
    forall j, r, ip, ttl | a <= j < b + 1 && Answers(script[j].payload, r, ip, ttl)
      ensures Cached(ops + more, n, r, ip, ttl, from, to')
    {
      if j < b {
        CachedLonger(ops, more, n, r, ip, ttl, from, to, to');
      } else {
        AnswerCached(script[b].payload, r, ip, ttl, ops, n, at, from, to');
      }
    }
  }

  lemma NothingToCache(script: seq<Datagram>, a: nat, ops: seq<Op>, n: nat, from: nat, to: nat)
    requires a <= |script| && forall d | d in script :: Safe(d.payload)
    ensures AllCached(script, a, a, ops, n, from, to) && OpsBetween(script, a, a, []) == []
  {
  }

  lemma LaterCached(script: seq<Datagram>, a: nat, b: nat, ops: seq<Op>, n: nat, from: nat, to: nat, to': nat)
    requires b <= |script| && to <= to' && AllCached(script, a, b, ops, n, from, to)
    ensures AllCached(script, a, b, ops, n, from, to')
  {
    hide Answers, Cached;
    forall j, r, ip, ttl | a <= j < b && Answers(script[j].payload, r, ip, ttl)
      ensures Cached(ops, n, r, ip, ttl, from, to')
    {
      CachedLonger(ops, [], n, r, ip, ttl, from, to, to');
      assert ops + [] == ops;
    }
  }

  class Client {
    const driver: W5500
    const socket: UdpSocket
    const cache: DNSCache
    var ip: Ipv4

    constructor (driver: W5500, socket: UdpSocket, cache: DNSCache, ip: Ipv4)
      ensures this.driver == driver && this.socket == socket && this.cache == cache && this.ip == ip
    {
      this.driver, this.socket, this.cache, this.ip := driver, socket, cache, ip;
    }

    ghost predicate Attached()
      reads driver.bus.chip
    {
      driver.Valid() && socket.base.driver == driver && socket.Attached()
    }

    function Port(): C.Port
      requires socket.base.driver == driver && socket.base.sockfd < |driver.bus.chip.ports|
    {
      socket.Port()
    }

    /** Between calls no packet is half read. */
    ghost predicate Valid()
      requires Attached()
      reads socket, socket.base, driver.bus, driver.bus.chip, Port(), cache, cache.entries
    {
      && socket.Valid() && socket.packetBytesRemaining == 0 && |Port().regs| == 0x30
      && CacheValid()
    }

    ghost predicate CacheValid()
      reads driver.bus, cache, cache.entries
    {
      cache.Valid() && Punctual(cache.ops, driver.bus.clock)
    }

    /** Everything the network will deliver can be scanned without leaving a packet. */
    ghost predicate AllSafe()
      requires Attached()
      reads driver.bus.chip
    {
      forall d | d in Port().script :: Safe(d.payload)
    }

    // ---- Responses ----

    /** Passes over the questions, names and all. */
    static method PassQuestions(buffer: seq<byte>, count: nat) returns (offset: nat)
      requires SkipQuestions(buffer, HEADER_SIZE, count).Some?
      ensures SkipQuestions(buffer, HEADER_SIZE, count) == Some(offset)
    {
      offset := HEADER_SIZE;
      for i := 0 to count
        invariant SkipQuestions(buffer, offset, count - i) == SkipQuestions(buffer, HEADER_SIZE, count)
      {
        ghost var name := offset;
        while buffer[offset] > 0
          invariant offset < |buffer| && QuestionNameEnd(buffer, offset) == QuestionNameEnd(buffer, name)
          decreases |buffer| - offset
        {
          if buffer[offset] >= 0x40 {
            offset := offset + 2;
          } else {
            offset := offset + (buffer[offset] + 1);
          }
        }
        offset := offset + (4 + 1);
      }
    }

    /** Passes over the name of an answer; ends on its last byte. */
    static method PassAnswerName(buffer: seq<byte>, name: nat) returns (offset: nat)
      requires AnswerNameEnd(buffer, name).Some?
      ensures AnswerNameEnd(buffer, name) == Some(offset)
    {
      offset := name;
      while buffer[offset] > 0
        invariant offset < |buffer| && AnswerNameEnd(buffer, offset) == AnswerNameEnd(buffer, name)
        decreases |buffer| - offset
      {
        if buffer[offset] >= 0x40 {
          offset := offset + 1;
          break;
        } else {
          offset := offset + (buffer[offset] + 1);
        }
      }
    }

    method CacheAddress(queryId: u16, ip: Ipv4, ttlSecs: u32) returns (ghost at: nat)
      requires CacheValid()
      modifies driver.bus, cache`ops, cache.entries
      ensures CacheValid() && old(driver.bus.clock) <= at == driver.bus.clock
      ensures cache.ops == old(cache.ops) + [Store(Wrap64(at), queryId, ip, ExpiryOf(Wrap64(at), ttlSecs))]
    {
      var now := driver.bus.Millis();
      at := now;
      ghost var ops := cache.ops;
      cache.Store(queryId, ip, Wrap64(now), Wrap64(Wrap64(now) + Wrap32(ttlSecs * 1000)));
      PunctualNext(ops, old(driver.bus.clock), cache.ops[|ops|], now);
    }

    method StoreFirstAddress(buffer: seq<byte>, queryId: u16, start: nat, count: nat) returns (ghost at: nat)
      requires CacheValid() && !ScanAnswers(buffer, start, count).Overrun?
      modifies driver.bus, cache`ops, cache.entries
      ensures CacheValid() && old(driver.bus.clock) <= at <= driver.bus.clock
      ensures cache.ops == old(cache.ops) + match ScanAnswers(buffer, start, count)
        case Found(ip, ttl) => [Store(Wrap64(at), queryId, ip, ExpiryOf(Wrap64(at), ttl))]
        case _ => []
    {
      hide DNSCache.Valid, Punctual, Be16, Be32, ExpiryOf, Wrap64, AnswerNameEnd;
      at := driver.bus.clock;
      var offset := start;
      for i := 0 to count
        invariant ScanAnswers(buffer, offset, count - i) == ScanAnswers(buffer, start, count)
        invariant CacheValid() && cache.ops == old(cache.ops) && at == driver.bus.clock == old(driver.bus.clock)
      {
        offset := PassAnswerName(buffer, offset);
        var responseType := Be16(buffer[offset + 1], buffer[offset + 2]);
        var responseClass := Be16(buffer[offset + 3], buffer[offset + 4]);
        if responseType == 0x01 && responseClass == 0x01 {
          var ttlSecs := Be32(buffer[offset + 5..offset + 9]);
          at := CacheAddress(queryId, buffer[offset + 11..offset + 15], ttlSecs);
          return;
        }
        offset := offset + 15;
      }
    }

    method ParseMessage(buffer: seq<byte>) returns (ghost at: nat)
      requires CacheValid() && |buffer| <= MAX_PACKET_SIZE && Safe(buffer)
      modifies driver.bus, cache`ops, cache.entries
      ensures CacheValid() && old(driver.bus.clock) <= at <= driver.bus.clock
      ensures cache.ops == old(cache.ops) + OpsOf(buffer, Wrap64(at))
    {
      hide CacheValid, SkipQuestions, ScanAnswers, ExpiryOf, Be16;
      at := driver.bus.clock;
      var queryId := Be16(buffer[0], buffer[1]);
      var isAnswer := buffer[2] >= 0x80;
      if !isAnswer {
        return;
      }
      var rcode := buffer[3] % 16;
      if rcode != 0 {
        return;
      }
      var queryCount := Be16(buffer[4], buffer[5]);
      var answerCount := Be16(buffer[6], buffer[7]);
      var offset := PassQuestions(buffer, queryCount);
      at := StoreFirstAddress(buffer, queryId, offset, answerCount);
    }

    /** Takes the next packet off the socket, if there is one, and what it says into the cache. */
    method ParsePacket() returns (more: bool, ghost at: nat)
      requires Attached() && Valid() && AllSafe()
      modifies socket, Port(), driver.bus, cache`ops, cache.entries
      ensures Valid() && socket.SendSideKept() && old(driver.bus.clock) <= at <= driver.bus.clock
      ensures !more ==> socket.index == old(socket.index) == old(Port().count) && cache.ops == old(cache.ops)
      ensures more ==> socket.index == old(socket.index) + 1
      ensures old(Port().count) <= Port().count
      ensures more ==> cache.ops == old(cache.ops) + OpsOf(Port().script[old(socket.index)].payload, Wrap64(at))
    {
      hide Rings.Tx.Holds, Rings.Rx.Holds, Rings.Tx.Free, C.Port.Valid, UdpSocket.Valid, UdpSocket.Unread,
        Socket.Valid, DNSCache.Valid, OpsOf, Wrap64, Punctual;
      at := driver.bus.clock;
      ghost var k := socket.index;
      var packetSize, _, _ := socket.ReadPacketHeader();
      if packetSize < 0 {
        return false, at;
      }
      more := true;
      ghost var payload := Port().script[k].payload;
      assert Safe(payload);
      if packetSize > MAX_PACKET_SIZE {
        socket.Skip(packetSize);
        TooLong(payload, Wrap64(at));
        return;
      }
      var buffer := socket.Read(packetSize);
      assert buffer == payload;
      at := ParseMessage(buffer);
    }

    /** Takes packets until none is left. */
    method Drain() returns (ghost ats: seq<nat>)
      requires Attached() && Valid() && AllSafe()
      modifies socket, Port(), driver.bus, cache`ops, cache.entries
      ensures Valid() && socket.SendSideKept() && old(socket.index) <= socket.index <= |Port().script|
      ensures |ats| == socket.index - old(socket.index) && old(Port().count) <= socket.index
      ensures cache.ops == old(cache.ops) + OpsBetween(Port().script, old(socket.index), socket.index, ats)
      ensures AllCached(Port().script, old(socket.index), socket.index, cache.ops, |old(cache.ops)|,
                        old(driver.bus.clock), driver.bus.clock)
    {
      hide Rings.Tx.Holds, Rings.Rx.Holds, Rings.Tx.Free, C.Port.Valid, UdpSocket.Valid, UdpSocket.Unread,
        Socket.Valid, DNSCache.Valid, OpsOf, Wrap64, Punctual, CacheValid, AllCached, OpsBetween, Safe;
      socket.IndexInScript();
      NothingToCache(Port().script, socket.index, cache.ops, |cache.ops|, driver.bus.clock, driver.bus.clock);
      ats := [];
      var more := true;
      while more
        invariant Valid() && socket.SendSideKept() && old(socket.index) <= socket.index
        invariant |ats| == socket.index - old(socket.index) && socket.index <= |Port().script|
        invariant old(Port().count) <= Port().count && (!more ==> old(Port().count) <= socket.index)
        invariant cache.ops == old(cache.ops) + OpsBetween(Port().script, old(socket.index), socket.index, ats)
        invariant old(driver.bus.clock) <= driver.bus.clock
        invariant AllCached(Port().script, old(socket.index), socket.index, cache.ops, |old(cache.ops)|,
                            old(driver.bus.clock), driver.bus.clock)
        decreases |Port().script| - socket.index, more
      {
        ghost var at, k, ops, clock := 0, socket.index, cache.ops, driver.bus.clock;
        more, at := ParsePacket();
        socket.IndexInScript();
        if more {
          AllCachedNext(Port().script, old(socket.index), k, ops, |old(cache.ops)|, old(driver.bus.clock), clock, at,
                        driver.bus.clock);
          OpsNext(Port().script, old(socket.index), socket.index - 1, ats, at);
          ats := ats + [at];
        } else {
          LaterCached(Port().script, old(socket.index), k, ops, |old(cache.ops)|, old(driver.bus.clock), clock,
                      driver.bus.clock);
        }
      }
    }

    /** The socket talks to the server, port to port. */
    ghost predicate Addressed()
      requires Attached() && |Port().regs| == 0x30
      reads this, driver.bus.chip, Port()
    {
      Port().DestIp() == ip && Port().DestPort() == 53 && Port().SourcePort() == 53
    }

    /** Brings the socket up if it is not. */
    method OpenSocket() returns (ready: bool)
      requires Attached() && Valid()
      modifies Port(), Port().polls
      ensures Valid() && Port().RxServed() && Port().TxServed()
      ensures UpPolled(old(Port().polls.status), Port().polls.status, ready)
      ensures Port().polls.flags == old(Port().polls.flags)
      ensures Port().control == old(Port().control)
        + if |Port().polls.status| == |old(Port().polls.status)| + 1 then [] else [0x01]
      ensures ready && Port().control != old(Port().control) ==> Addressed()
      ensures !ready ==> Port().regs[0x03] != 0x22
    {
      hide Rings.Tx.Holds, Rings.Rx.Holds, Rings.Tx.Free, UdpSocket.Unread, C.Port.DestPort, C.Port.DestIp,
        CacheValid, StatusPolled, UpPolled;
      ghost var was := Port().polls.status;
      ready := socket.Ready();
      if ready {
        PolledOnce(was, Port().polls.status);
        return;
      }
      ghost var mid := Port().polls.status;
      ready := socket.Init();
      PolledTwice(was, mid, Port().polls.status, ready);
      if !ready {
        return;
      }
      socket.base.SetDestIp(ip);
      socket.base.SetDestPort(PORT);
      socket.base.SetSourcePort(PORT);
    }

    /**
     What an update takes from the network: datagrams of the script, one after the other, each
     with the cache operations it calls for. Nothing is sent, and what is gathered stays.
     */
    method Update() returns (drained: bool, ghost ats: seq<nat>)
      requires Attached() && Valid() && AllSafe()
      modifies socket, Port(), Port().polls, driver.bus, cache`ops, cache.entries
      ensures Drained(old(Port().polls.status), Port().polls.status, old(Port().polls.flags), Port().polls.flags,
                      drained)
      ensures Valid() && old(socket.index) <= socket.index && |ats| == socket.index - old(socket.index)
      ensures Port().TxServed() && socket.base.writeOffset == old(socket.base.writeOffset)
      ensures drained ==> old(Port().count) <= socket.index <= |Port().script|
      ensures drained ==>
        AllCached(Port().script, old(socket.index), socket.index, cache.ops, |old(cache.ops)|,
                  old(driver.bus.clock), driver.bus.clock)
      ensures cache.ops == old(cache.ops) + OpsBetween(Port().script, old(socket.index), socket.index, ats)
    {
      hide Rings.Tx.Holds, Rings.Rx.Holds, Rings.Tx.Free, C.Port.Valid, UdpSocket.Unread, Socket.Valid,
        DNSCache.Valid, OpsOf, Wrap64, CacheValid;
      drained, ats := false, [];
      var ready := OpenSocket();
      if !ready {
        return;
      }
      var recv := socket.CheckFlag();
      if recv {
        ats := Drain();
        drained := true;
      }
    }

    method Get(queryId: u16) returns (answer: Answer)
      requires CacheValid()
      modifies driver.bus, cache`ops, cache.entries
      ensures CacheValid() && old(driver.bus.clock) <= driver.bus.clock
      ensures cache.ops == old(cache.ops) + [Op.Get(Wrap64(driver.bus.clock), queryId)]
      ensures RightAnswer(old(cache.ops), Op.Get(Wrap64(driver.bus.clock), queryId), answer)
    {
      ghost var ops, before := cache.ops, driver.bus.clock;
      hide RightAnswer, DNSCache.Valid, Punctual;
      var now := driver.bus.Millis();
      PunctualNext(ops, before, Op.Get(Wrap64(now), queryId), now);
      answer := cache.Get(Wrap64(now), queryId);
    }

    // ---- Queries ----

    method WriteLabel(l: seq<byte>)
      requires Attached() && socket.base.Valid() && |l| <= LENGTH_LIMIT
      requires socket.base.writeOffset + |l| + 1 <= Port().tx.Free()
      modifies socket.base, Port()
      ensures socket.base.OnlyGathered() && Port().gathered == old(Port().gathered) + ([|l|] + l)
    {
      var _ := socket.base.Write([|l|]);
      var _ := socket.base.Write(l);
    }

    /** The label from `start` up to the dot or end at `i`, unless it is too long. */
    method WriteNextLabel(hostname: seq<byte>, start: nat, i: nat) returns (ok: bool)
      requires Attached() && socket.base.Valid() && start <= i <= |hostname| && NextDot(hostname, start) == i
      requires socket.base.writeOffset + (i - start) + 1 <= Port().tx.Free()
      modifies socket.base, Port()
      ensures socket.base.OnlyGathered()
      ensures var e, rest := Emitted(Labels(hostname, start)), Following(hostname, i);
        if ok then old(Port().gathered) + e.0 == Port().gathered + rest.0 && e.1 == rest.1
          && |Port().gathered| == |old(Port().gathered)| + (i - start) + 1
        else Port().gathered == old(Port().gathered) && e == ([], false)
    {
      hide Rings.Tx.Holds, Rings.Rx.Holds, Rings.Tx.Free, C.Port.Valid, Emitted, Labels, NextDot, Following,
        W5500.TxReady, W5500.RxReady;
      ghost var g, l, rest := Port().gathered, hostname[start..i], Following(hostname, i);
      LabelEmitted(hostname, start, i);
      if i - start > LENGTH_LIMIT {
        return false;
      }
      WriteLabel(hostname[start..i]);
      Associates(g, [|l|] + l, rest.0);
      return true;
    }

    /** The host name, label by label; stops at the first label whose length does not fit a byte. */
    method WriteName(hostname: seq<byte>) returns (ok: bool)
      requires Attached() && socket.base.Valid()
      requires socket.base.writeOffset + |hostname| + 1 <= Port().tx.Free()
      modifies socket.base, Port()
      ensures socket.base.OnlyGathered()
      ensures Port().gathered == old(Port().gathered) + Emitted(Split(hostname)).0 && ok == Emitted(Split(hostname)).1
    {
      hide Rings.Tx.Holds, Rings.Rx.Holds, Rings.Tx.Free, C.Port.Valid, Emitted, Labels, W5500.TxReady, W5500.RxReady;
      ghost var start := Port().gathered;
      var labelStart, i := 0, 0;
      while true
        invariant labelStart <= i <= |hostname| && NextDot(hostname, labelStart) == NextDot(hostname, i)
        invariant socket.base.OnlyGathered()
        invariant socket.base.writeOffset + (|hostname| - labelStart) + 1 <= Port().tx.Free()
        invariant start + Emitted(Split(hostname)).0 == Port().gathered + Emitted(Labels(hostname, labelStart)).0
        invariant Emitted(Split(hostname)).1 == Emitted(Labels(hostname, labelStart)).1
        decreases |hostname| - i
      {
        if i == |hostname| || hostname[i] == DOT {
          ok := WriteNextLabel(hostname, labelStart, i);
          if !ok {
            return;
          }
          if i == |hostname| {
            return;
          }
          labelStart := i + 1;
        }
        i := i + 1;
      }
    }

    method FillHeader(buffer: array<byte>, queryId: u16)
      requires buffer.Length == 32
      modifies buffer
      ensures buffer[..HEADER_SIZE] == HeaderSent(queryId)
    {
      buffer[0], buffer[1] := Hi(queryId), Lo(queryId);
      buffer[2], buffer[3] := 0x01, 0x00;
      buffer[4], buffer[5] := Hi(1), Lo(1);
      buffer[6], buffer[7] := Hi(0), Lo(0);
      buffer[8], buffer[9] := Hi(0), Lo(0);
      buffer[10], buffer[11] := Hi(0), Lo(0);
    }

    method FillTail(buffer: array<byte>)
      requires buffer.Length == 32
      modifies buffer
      ensures buffer[..5] == QUERY_TAIL
    {
      buffer[0] := 0x00;
      buffer[1], buffer[2] := Hi(0x01), Lo(0x01);
      buffer[3], buffer[4] := Hi(0x01), Lo(0x01);
    }

    /** Everything in front of the terminator; `ok` tells whether the rest may follow. */
    method GatherQuestion(buffer: array<byte>, queryId: u16, hostname: seq<byte>) returns (ok: bool)
      requires Attached() && socket.base.Valid() && buffer.Length == 32
      requires socket.base.writeOffset + |hostname| + 18 <= Port().tx.Free()
      modifies buffer, socket.base, Port()
      ensures socket.base.OnlyGathered() && ok == Gathered(queryId, hostname).1
      ensures Port().gathered == old(Port().gathered) + Gathered(queryId, hostname).0
      ensures ok ==> socket.base.writeOffset + 5 <= Port().tx.Free()
    {
      hide Rings.Tx.Holds, Rings.Rx.Holds, Rings.Tx.Free, C.Port.Valid, HeaderSent, Emitted;
      EmittedLength(hostname, 0);
      assert |Emitted(Split(hostname)).0| <= |hostname| + 1;
      hide Split;
      FillHeader(buffer, queryId);
      ghost var g := Port().gathered;
      var _ := socket.base.Write(buffer[..HEADER_SIZE]);
      ok := WriteName(hostname);
      Associates(g, HeaderSent(queryId), Emitted(Split(hostname)).0);
    }

    /** The query is on the wire, behind whatever had been gathered before. */
    twostate predicate QueryLeft(queryId: u16, hostname: seq<byte>)
      requires Attached() && |Port().regs| == 0x30
      reads this, socket, driver.bus.chip, Port()
    {
      Port().sent == old(Port().sent)
        + [C.Sent(Port().DestIp(), Port().DestPort(), old(Port().gathered) + QuerySent(queryId, hostname))]
    }

    /** What follows when the cache does not know the host. */
    method SendQuery(queryId: u16, hostname: seq<byte>) returns (ok: bool)
      requires Attached() && socket.base.Valid() && |Port().regs| == 0x30
      requires socket.base.writeOffset + |hostname| + 18 <= Port().tx.Free()
      modifies socket.base, Port()
      ensures socket.base.Valid() && Port().RxServed() && Port().RegsServed() && ok == Gathered(queryId, hostname).1
      ensures ok ==> QueryLeft(queryId, hostname) && socket.base.writeOffset == 0
      ensures !ok ==> Port().sent == old(Port().sent)
      ensures !ok ==> Port().gathered == old(Port().gathered) + Gathered(queryId, hostname).0
      ensures !ok ==> Port().control != [] && Port().control[|Port().control| - 1] == R.CLOSE
    {
      hide Rings.Tx.Holds, Rings.Rx.Holds, Rings.Tx.Free, C.Port.Valid, C.Port.DestIp, C.Port.DestPort, Gathered;
      var buffer := new byte[32](_ => 0);
      ghost var g := Port().gathered;
      ok := GatherQuestion(buffer, queryId, hostname);
      if !ok {
        socket.base.Close();
        return;
      }
      FillTail(buffer);
      var _ := socket.base.Write(buffer[..5]);
      Associates(g, Gathered(queryId, hostname).0, QUERY_TAIL);
      socket.base.Send();
    }

    method AskCache(queryId: u16) returns (known: bool)
      requires CacheValid()
      modifies driver.bus, cache`ops, cache.entries
      ensures CacheValid() && cache.ops == old(cache.ops) + [Has(Wrap64(driver.bus.clock), queryId)]
      ensures RightAnswer(old(cache.ops), Has(Wrap64(driver.bus.clock), queryId), if known then Present else Absent)
      ensures known <==> Known(old(cache.entries[..]), Wrap64(driver.bus.clock), queryId)
    {
      ghost var ops, before := cache.ops, driver.bus.clock;
      hide RightAnswer, Punctual, Known;
      var now := driver.bus.Millis();
      PunctualNext(ops, before, Has(Wrap64(now), queryId), now);
      known := cache.HasEntry(Wrap64(now), queryId);
    }

    /**
     Asks for a host name under its CRC, unless the cache holds a live entry under it. A label of
     more than 255 bytes makes the query fail; then nothing is sent, but what was gathered until
     then stays.
     */
    method Query(hostname: seq<byte>) returns (ok: bool, queryId: u16, ghost known: bool)
      requires Attached() && Valid()
      requires socket.base.writeOffset + |hostname| + 18 <= Port().tx.Free()
      modifies socket.base, Port(), driver.bus, cache`ops, cache.entries
      ensures Valid() && queryId == Crc16.Crc(hostname)
      ensures cache.ops == old(cache.ops) + [Has(Wrap64(driver.bus.clock), queryId)]
      ensures RightAnswer(old(cache.ops), Has(Wrap64(driver.bus.clock), queryId), if known then Present else Absent)
      ensures known <==> Known(old(cache.entries[..]), Wrap64(driver.bus.clock), queryId)
      ensures known ==> ok && Port().sent == old(Port().sent) && Port().gathered == old(Port().gathered)
      ensures !known ==> ok == Gathered(queryId, hostname).1
      ensures !known && ok ==> QueryLeft(queryId, hostname) && socket.base.writeOffset == 0
      ensures !ok ==> Port().sent == old(Port().sent)
      ensures !ok ==> Port().gathered == old(Port().gathered) + Gathered(queryId, hostname).0
    {
      hide Rings.Tx.Holds, Rings.Rx.Holds, Rings.Tx.Free, C.Port.Valid, C.Port.DestIp, C.Port.DestPort,
        Gathered, RightAnswer, Punctual, QuerySent, Known;
      queryId := Crc16.Of(hostname);
      ok := AskCache(queryId);
      known := ok;
      if !ok {
        ok := SendQuery(queryId, hostname);
      }
    }
  }

  /** The response starts with the two bytes of the query. */
  ghost predicate SameStart(id: u16, hostname: seq<byte>, r: Response)
    requires r.Valid()
  {
    var p, q := QuerySent(id, hostname), r.Bytes();
    |p| >= 2 && |q| >= 2 && p[..2] == q[..2]
  }

  /** The response answers the query for this host, which no live entry was there to answer. */
  ghost predicate AnswersQuery(hostname: seq<byte>, r: Response, ip: Ipv4, ttl: u32, ops: seq<Op>, at: u64) {
    && r.Valid() && Answers(r.Bytes(), r, ip, ttl) && Safe(r.Bytes()) && SameStart(Crc16.Crc(hostname), hostname, r)
    && Ordered(ops) && (forall op | op in ops :: op.now <= at) && !Known(AfterLazy(ops), at, Crc16.Crc(hostname))
  }

  /**
   The circle closes: if a response carries the first two bytes of the query for a host name, and
   the cache had no live entry for that host, then from the moment its address is stored until
   that expires, `get` under the id that `query` returned finds that address.
   */
  lemma AnsweredQueryHits(hostname: seq<byte>, r: Response, ip: Ipv4, ttl: u32, ops: seq<Op>, at: u64, now: u64)
    requires AnswersQuery(hostname, r, ip, ttl, ops, at) && at <= now <= ExpiryOf(at, ttl)
    ensures AnswerTo(AfterLazy(ops + OpsOf(r.Bytes(), at)), Get(now, Crc16.Crc(hostname))) == Hit(ip)
  {
    hide Crc16.Crc, QuerySent, SameStart, Response.Bytes, Response.Valid, Ordered, Known, AfterLazy, ExpiryOf,
      OpsOf, AnswerTo,
      NoneUnder, Slot, Evicted, Safe, Straight, AddressIn, StoresAlone;
    var id, expiresAt := Crc16.Crc(hostname), ExpiryOf(at, ttl);
    SameId(id, hostname, r);
    ResponseStored(r, at);
    LaterOrdered(ops, Store(at, id, ip, expiresAt));
    NoneKnown(AfterLazy(ops), at, id);
    StoredAlone(ops, Store(at, id, ip, expiresAt));
    var all := ops + [Store(at, id, ip, expiresAt)];
    StoredIsFound(all, |ops|, now);
    NotYetEvicted(all, Slot(AfterLazy(all[..|ops|]), at));
  }

  lemma SameId(id: u16, hostname: seq<byte>, r: Response)
    requires r.Valid() && SameStart(id, hostname, r)
    ensures r.id == id
  {
    hide QuerySent, Response.Bytes, Response.Valid;
    QueryHeader(id, hostname);
    ResponseLayout(r);
    var p, q := QuerySent(id, hostname), r.Bytes();
    assert p[0] == p[..2][0] == q[0] && p[1] == p[..2][1] == q[1];
  }

  lemma LaterOrdered(ops: seq<Op>, op: Op)
    requires Ordered(ops) && forall o | o in ops :: o.now <= op.now
    ensures Ordered(ops + [op])
  {
    assert forall k | 0 <= k < |ops| :: ops[k] in ops;
  }

  lemma NoneKnown(es: seq<Entry>, now: u64, id: u16)
    requires |es| == 8 && !Known(es, now, id)
    ensures NoneUnder(es, now, id)
  {
  }

  lemma StoredAlone(ops: seq<Op>, op: Op)
    requires op.Store? && NoneUnder(AfterLazy(ops), op.now, op.id)
    ensures (ops + [op])[..|ops|] == ops && StoresAlone(ops + [op], |ops|)
  {
    hide *;
    assert (ops + [op])[..|ops|] == ops;
    AloneAtEnd(ops + [op], |ops|);
  }

  lemma NotYetEvicted(ops: seq<Op>, k: nat)
    ensures !Evicted(ops, |ops|, k)
  {
  }

  /** The status register said UDP, at once or after an OPEN. */
  ghost predicate UpPolled(was: seq<byte>, now: seq<byte>, ready: bool) {
    && was <= now && |was| < |now| <= |was| + 2
    && (now[|was|] == 0x22 <==> |now| == |was| + 1)
    && (ready <==> now[|now| - 1] == 0x22)
  }

  lemma PolledOnce(was: seq<byte>, now: seq<byte>)
    requires StatusPolled(was, now, true)
    ensures UpPolled(was, now, true) && |now| == |was| + 1
  {
  }

  lemma PolledTwice(was: seq<byte>, mid: seq<byte>, now: seq<byte>, ready: bool)
    requires StatusPolled(was, mid, false) && StatusPolled(mid, now, ready)
    ensures UpPolled(was, now, ready) && |now| == |was| + 2
  {
  }

  /** The socket was up, and the interrupt register, as read by this update, had RECV set. */
  ghost predicate Drained(status: seq<byte>, status': seq<byte>, flags: seq<byte>, flags': seq<byte>, drained: bool) {
    if UpPolled(status, status', true) then FlagPolled(flags, flags', drained)
    else UpPolled(status, status', false) && flags' == flags && !drained
  }

  lemma TooLong(p: seq<byte>, now: u64)
    requires |p| > MAX_PACKET_SIZE
    ensures OpsOf(p, now) == []
  {
  }

  /** What is emitted for the labels behind the dot or end at `i`. */
  ghost function Following(hostname: seq<byte>, i: nat): (seq<byte>, bool)
    requires i <= |hostname|
  {
    if i == |hostname| then ([], true) else Emitted(Labels(hostname, i + 1))
  }

  /** The label that ends at `i`, and the rest. */
  lemma LabelEmitted(hostname: seq<byte>, start: nat, i: nat)
    requires start <= i <= |hostname| && NextDot(hostname, start) == i
    ensures var e, l, rest := Emitted(Labels(hostname, start)), hostname[start..i], Following(hostname, i);
      e == if |l| > LENGTH_LIMIT then ([], false) else ([|l|] + l + rest.0, rest.1)
  {
    var rest := if i == |hostname| then [] else Labels(hostname, i + 1);
    assert Following(hostname, i) == Emitted(rest);
    hide *;
    FirstLabel(hostname, start);
    EmittedFirst(hostname[start..i], rest);
  }
}

/** The packets the client sends, and its reading of the packets it receives (RFC 2131, section 2). */
module DhcpPacket {
  import opened Words
  import opened DhcpHeader
  import opened DhcpOptions

  const MAGIC_COOKIE: u32 := 0x6382_5363
  const BROADCAST_FLAG: u16 := 0x8000
  const OPTIONS_START: nat := 240

  type Mac = m: seq<byte> | |m| == 6 witness [0, 0, 0, 0, 0, 0]

  // ---- Sending ----

  /** The host name option holds as much of the name as its length, taken as a byte, says. */
  function HostnameSent(hostname: seq<byte>): (h: seq<byte>)
    ensures |h| == |hostname| % 256
  {
    hostname[..|hostname| % 256]
  }

  const PARAMS_WANTED: Value := [SUBNET_MASK, ROUTERS, DNS_SERVERS, DOMAIN_NAME, T1_VALUE, T2_VALUE]

  /** The options of a DISCOVER or REQUEST, in order. */
  function OptionsSent(kind: byte, mac: Mac, hostname: seq<byte>, l: Lease): (opts: seq<Opt>)
    ensures AllWellFormed(opts)
  {
    [Opt(MESSAGE_TYPE, [kind]), Opt(CLIENT_IDENTIFIER, [1] + mac), Opt(CLIENT_HOSTNAME, HostnameSent(hostname))]
    + (if kind == REQUEST then [Opt(REQUESTED_IP, l.ip), Opt(SERVER_IDENTIFIER, l.server)] else [])
    + [Opt(PARAM_REQUEST, PARAMS_WANTED)]
  }

  /** Everything before the options: fixed header, sname and file, and the magic cookie. */
  function HeaderSent(xid: u32, secs: u16, mac: Mac): (h: seq<byte>)
    ensures |h| == OPTIONS_START
  {
    [1, 1, 6, 0] + Bytes32(xid) + Bytes16(secs) + Bytes16(BROADCAST_FLAG) + ZeroBytes(16)
    + mac + ZeroBytes(10) + ZeroBytes(192) + Bytes32(MAGIC_COOKIE)
  }

  function PacketSent(kind: byte, xid: u32, secs: u16, mac: Mac, hostname: seq<byte>, l: Lease): seq<byte> {
    HeaderSent(xid, secs, mac) + Encode(OptionsSent(kind, mac, hostname, l)) + [END]
  }

  /**
   `seconds_elapsed`: the 64-bit difference is taken the wrong way round, so that the field counts
   down from 2^64 milliseconds.
   */
  function SecondsElapsed(started: nat, now: nat): u16 {
    Wrap16((started - now) % U64 / 1000)
  }

  /**
   So the field is right, in a session of less than 2^64 milliseconds, only where the count down
   happens to meet the count up.
   */
  lemma SecsRightIff(started: nat, now: nat)
    requires started < now < started + U64
    ensures var ms := now - started;
      SecondsElapsed(started, now) == ms / 1000 % 65536
      <==> (2 * (ms / 1000) + if ms % 1000 > 616 then 1 else 0) % 65536 == 18446744073709551 % 65536
  {
    var ms := now - started;
    var a, b := ms / 1000, ms % 1000;
    var c := if b > 616 then 1 else 0;
    Quotient(U64 - ms, 18446744073709551 - a - c, 616 - b + 1000 * c);
    WrapOnce(started - now);
    hide *;
    CongruentIff(18446744073709551 - a - c, a);
    CongruentIff(2 * a + c, 18446744073709551);
    MirrorCongruent(18446744073709551 - (2 * a + c));
  }

  lemma Quotient(n: nat, q: int, r: int)
    requires n == q * 1000 + r && 0 <= r < 1000
    ensures n / 1000 == q
  {
  }

  lemma WrapOnce(d: int)
    requires -U64 < d < 0
    ensures d % U64 == d + U64
  {
  }

  lemma MirrorCongruent(x: int)
    ensures x % 65536 == 0 <==> (-x) % 65536 == 0
  {
  }

  lemma CongruentIff(x: int, y: int)
    ensures x % 65536 == y % 65536 <==> (x - y) % 65536 == 0
  {
  }

  // ---- Reading options back, by the standard ----

  /** The options up to END; pads are skipped. */
  function Options(p: seq<byte>): seq<Opt>
    decreases |p|
  {
    if p == [] || p[0] == 255 then []
    else if p[0] == 0 then Options(p[1..])
    else if |p| < 2 || |p| < 2 + p[1] as int then []
    else [Opt(p[0], p[2..2 + p[1] as int])] + Options(p[2 + p[1] as int..])
  }

  lemma {:induction false} OptionsRoundTrip(opts: seq<Opt>, trail: seq<byte>)
    requires AllWellFormed(opts)
    ensures Options(Encode(opts) + [END] + trail) == opts
    decreases |opts|
  {
    if opts != [] {
      var o := opts[0];
      var rest := Encode(opts[1..]) + [END] + trail;
      var p := Encode(opts) + [END] + trail;
      assert p == EncodeOpt(o) + rest;
      assert p[0] == o.code && p[1] == |o.value| && p[2..2 + |o.value|] == o.value && p[2 + |o.value|..] == rest;
      OptionsRoundTrip(opts[1..], trail);
      assert o in opts && opts == [o] + opts[1..];
      assert Options(p) == [Opt(p[0], p[2..2 + p[1] as int])] + Options(rest);
    }
  }

  lemma {:induction false} EncodeConcat(a: seq<Opt>, b: seq<Opt>)
    ensures Encode(a + b) == Encode(a) + Encode(b)
  {
    if a == [] {
      assert a + b == b;
    } else {
      assert (a + b)[1..] == a[1..] + b;
      EncodeConcat(a[1..], b);
    }
  }

  lemma EncodeOne(o: Opt)
    ensures Encode([o]) == EncodeOpt(o)
  {
    assert Encode([o]) == EncodeOpt(o) + Encode([]);
  }

  /** The options a packet is to carry, by the numbers of RFC 2132. */
  function OptionsWanted(kind: byte, mac: Mac, hostname: seq<byte>, ip: Address, server: Address): seq<Opt>
    requires |hostname| < 256
  {
    [Opt(53, [kind]), Opt(61, [1] + mac), Opt(12, hostname)]
    + (if kind == 3 then [Opt(50, ip), Opt(54, server)] else [])
    + [Opt(55, [1, 3, 6, 15, 58, 59])]
  }

  /**
   Every packet is well formed: its length, every field in front of the options, and options that
   start at byte 240 and decode to the intended list: message type, client identifier, host name,
   in a REQUEST the address asked for and the server asked, and the wanted parameters. Of a host
   name of 256 bytes or more only the first bytes are sent, as many as its length modulo 256.
   */
  lemma PacketWellFormed(kind: byte, xid: u32, secs: u16, mac: Mac, hostname: seq<byte>, l: Lease)
    ensures var p := PacketSent(kind, xid, secs, mac, hostname, l);
      && |p| == 263 + |hostname| % 256 + (if kind == 3 then 12 else 0)
      && p[0..4] == [1, 1, 6, 0] && Be32(p[4..8]) == xid && p[8] as int * 256 + p[9] as int == secs
      && p[10..12] == [0x80, 0]
      && p[12..28] == ZeroBytes(16) && p[28..34] == mac && p[34..236] == ZeroBytes(202)
      && p[236..240] == [99, 130, 83, 99]
      && p[240..243] == [53, 1, kind]
      && Options(p[240..]) == OptionsWanted(kind, mac, hostname[..|hostname| % 256], l.ip, l.server)
    ensures |hostname| < 256 ==> hostname[..|hostname| % 256] == hostname
  {
    hide HeaderSent, Encode, OptionsSent, Options, Be32, Bytes32;
    var p, h := PacketSent(kind, xid, secs, mac, hostname, l), HeaderSent(xid, secs, mac);
    var opts := OptionsSent(kind, mac, hostname, l);
    WantedSent(kind, mac, hostname, l);
    assert p == h + (Encode(opts) + [END] + []);
    assert p[240..] == Encode(opts) + [END] + [];
    OptionsRoundTrip(opts, []);
    EncodedLength(kind, mac, hostname, l);
    FirstBytes(opts, kind);
    assert p[240..243] == Encode(opts)[..3];
    HeaderBytes(xid, secs, mac, p);
  }

  lemma WantedSent(kind: byte, mac: Mac, hostname: seq<byte>, l: Lease)
    ensures var opts := OptionsSent(kind, mac, hostname, l);
      && opts == OptionsWanted(kind, mac, hostname[..|hostname| % 256], l.ip, l.server)
      && opts != [] && opts[0] == Opt(53, [kind])
  {
  }

  lemma FirstBytes(opts: seq<Opt>, kind: byte)
    requires opts != [] && opts[0] == Opt(53, [kind])
    ensures |Encode(opts)| >= 3 && Encode(opts)[..3] == [53, 1, kind]
  {
    assert Encode(opts) == [53, 1, kind] + Encode(opts[1..]);
  }

  lemma HeaderBytes(xid: u32, secs: u16, mac: Mac, p: seq<byte>)
    requires |p| >= 240 && forall i | 0 <= i < 240 :: p[i] == HeaderSent(xid, secs, mac)[i]
    ensures p[0..4] == [1, 1, 6, 0] && Be32(p[4..8]) == xid && p[8] as int * 256 + p[9] as int == secs
    ensures p[10..12] == [0x80, 0] && p[12..28] == ZeroBytes(16) && p[28..34] == mac && p[34..236] == ZeroBytes(202)
    ensures p[236..240] == [99, 130, 83, 99]
  {
    Bytes32RoundTrip(xid);
    CookieBytes();
    assert p[4..8] == Bytes32(xid);
    hide Bytes32, Be32;
    assert p[0..4] == [1, 1, 6, 0] && p[10..12] == Bytes16(BROADCAST_FLAG);
    assert p[12..28] == ZeroBytes(16) && p[28..34] == mac && p[34..236] == ZeroBytes(202);
    assert p[236..240] == Bytes32(MAGIC_COOKIE);
  }

  lemma CookieBytes()
    ensures Bytes32(MAGIC_COOKIE) == [99, 130, 83, 99]
  {
  }

  /** The parser of received headers recovers the same from a packet sent. */
  lemma PacketDecodes(kind: byte, xid: u32, secs: u16, mac: Mac, hostname: seq<byte>, l: Lease)
    ensures var p := PacketSent(kind, xid, secs, mac, hostname, l);
      && |p| >= HEADER_SIZE
      && Decode(p) == Header(1, 1, 6, 0, xid, secs, 0x8000, ZeroBytes(4), ZeroBytes(4), ZeroBytes(4), ZeroBytes(4), mac)
  {
    HeaderDecodes(xid, secs, mac, PacketSent(kind, xid, secs, mac, hostname, l));
  }

  lemma EncodedLength(kind: byte, mac: Mac, hostname: seq<byte>, l: Lease)
    ensures |Encode(OptionsSent(kind, mac, hostname, l))| == 22 + |hostname| % 256 + if kind == REQUEST then 12 else 0
  {
    OptionsEncoded(kind, mac, hostname, l);
  }

  /** The option bytes, in the pieces in which the client writes them. */
  lemma OptionsEncoded(kind: byte, mac: Mac, hostname: seq<byte>, l: Lease)
    ensures Encode(OptionsSent(kind, mac, hostname, l))
      == ([MESSAGE_TYPE, 1, kind, CLIENT_IDENTIFIER, 7, 1] + mac + [CLIENT_HOSTNAME, |HostnameSent(hostname)|])
         + HostnameSent(hostname)
         + (if kind == REQUEST then [REQUESTED_IP, 4] + l.ip + [SERVER_IDENTIFIER, 4] + l.server else [])
         + [PARAM_REQUEST, 6, SUBNET_MASK, ROUTERS, DNS_SERVERS, DOMAIN_NAME, T1_VALUE, T2_VALUE]
  {
    var id, name := Opt(CLIENT_IDENTIFIER, [1] + mac), Opt(CLIENT_HOSTNAME, HostnameSent(hostname));
    var first := [Opt(MESSAGE_TYPE, [kind]), id, name];
    var middle := if kind == REQUEST then [Opt(REQUESTED_IP, l.ip), Opt(SERVER_IDENTIFIER, l.server)] else [];
    var last := Opt(PARAM_REQUEST, PARAMS_WANTED);
    assert OptionsSent(kind, mac, hostname, l) == (first + middle) + [last];
    hide *;
    FirstEncoded(kind, mac, HostnameSent(hostname));
    EncodeMiddle(kind, l);
    LastEncoded();
    EncodeConcat(first + middle, [last]);
    EncodeConcat(first, middle);
  }

  lemma FirstEncoded(kind: byte, mac: Mac, name: Value)
    ensures Encode([Opt(MESSAGE_TYPE, [kind]), Opt(CLIENT_IDENTIFIER, [1] + mac), Opt(CLIENT_HOSTNAME, name)])
      == ([MESSAGE_TYPE, 1, kind, CLIENT_IDENTIFIER, 7, 1] + mac + [CLIENT_HOSTNAME, |name|]) + name
  {
    var o1, o2, o3 := Opt(MESSAGE_TYPE, [kind]), Opt(CLIENT_IDENTIFIER, [1] + mac), Opt(CLIENT_HOSTNAME, name);
    EncodeThree(o1, o2, o3);
    hide Encode;
    assert EncodeOpt(o1) + EncodeOpt(o2) + EncodeOpt(o3)
      == ([MESSAGE_TYPE, 1, kind, CLIENT_IDENTIFIER, 7, 1] + mac + [CLIENT_HOSTNAME, |name|]) + name;
  }

  lemma LastEncoded()
    ensures Encode([Opt(PARAM_REQUEST, PARAMS_WANTED)])
      == [PARAM_REQUEST, 6, SUBNET_MASK, ROUTERS, DNS_SERVERS, DOMAIN_NAME, T1_VALUE, T2_VALUE]
  {
    EncodeOne(Opt(PARAM_REQUEST, PARAMS_WANTED));
    hide Encode;
  }

  /** The packet in the pieces in which the client gathers it. */
  lemma PacketInPieces(kind: byte, xid: u32, secs: u16, mac: Mac, hostname: seq<byte>, l: Lease)
    ensures PacketSent(kind, xid, secs, mac, hostname, l)
      == [] + ([1, 1, 6, 0] + Bytes32(xid) + Bytes16(secs) + Bytes16(BROADCAST_FLAG) + ZeroBytes(16))
         + (mac + ZeroBytes(10) + ZeroBytes(192))
         + (Bytes32(MAGIC_COOKIE) + [MESSAGE_TYPE, 1, kind, CLIENT_IDENTIFIER, 7, 1] + mac
            + [CLIENT_HOSTNAME, |HostnameSent(hostname)|] + HostnameSent(hostname))
         + (if kind == REQUEST then [REQUESTED_IP, 4] + l.ip + [SERVER_IDENTIFIER, 4] + l.server else [])
         + [PARAM_REQUEST, 6, SUBNET_MASK, ROUTERS, DNS_SERVERS, DOMAIN_NAME, T1_VALUE, T2_VALUE, END]
  {
    OptionsEncoded(kind, mac, hostname, l);
    hide Encode, OptionsSent, HostnameSent, Bytes32, Bytes16;
  }

  lemma EncodeMiddle(kind: byte, l: Lease)
    ensures Encode(if kind == REQUEST then [Opt(REQUESTED_IP, l.ip), Opt(SERVER_IDENTIFIER, l.server)] else [])
      == if kind == REQUEST then [REQUESTED_IP, 4] + l.ip + [SERVER_IDENTIFIER, 4] + l.server else []
  {
    var a, b := Opt(REQUESTED_IP, l.ip), Opt(SERVER_IDENTIFIER, l.server);
    if kind == REQUEST {
      EncodeConcat([a], [b]);
      EncodeOne(a);
      EncodeOne(b);
      assert [a] + [b] == [a, b];
    }
  }

  lemma EncodeThree(a: Opt, b: Opt, c: Opt)
    ensures Encode([a, b, c]) == EncodeOpt(a) + EncodeOpt(b) + EncodeOpt(c)
  {
    EncodeConcat([a, b], [c]);
    EncodeConcat([a], [b]);
    EncodeOne(a);
    EncodeOne(b);
    EncodeOne(c);
    hide Encode, EncodeOpt;
    assert [a, b] + [c] == [a, b, c] && [a] + [b] == [a, b];
  }

  lemma HeaderDecodes(xid: u32, secs: u16, mac: Mac, p: seq<byte>)
    requires HeaderSent(xid, secs, mac) <= p
    ensures Decode(p) == Header(1, 1, 6, 0, xid, secs, BROADCAST_FLAG, ZeroBytes(4), ZeroBytes(4), ZeroBytes(4),
                                ZeroBytes(4), mac)
  {
    var h := HeaderSent(xid, secs, mac);
    Bytes32RoundTrip(xid);
    assert forall i | 0 <= i < 240 :: p[i] == h[i];
    assert p[4..8] == Bytes32(xid);
    assert p[12..16] == p[16..20] == p[20..24] == p[24..28] == ZeroBytes(4);
    assert p[28..34] == mac;
    assert Be16(Hi(secs), Lo(secs)) == secs;
    assert Be16(Hi(BROADCAST_FLAG), Lo(BROADCAST_FLAG)) == BROADCAST_FLAG;
    hide Be32, Bytes32;
  }

  // ---- Receiving ----

  const BOOTREPLY: byte := 2

  /** The payload passes the tests on operation, hardware address and transaction id. */
  predicate ForUs(p: seq<byte>, mac: Mac, low: u32, high: u32)
    requires |p| >= HEADER_SIZE
  {
    var h := Decode(p);
    h.op == BOOTREPLY && h.chaddr == mac && low <= h.xid <= high
  }

  /**
   Payloads on which no read of `parse_dhcp_response` leaves the packet: the header is there, and
   in replies for this hardware address the options are, and stay within the packet.
   */
  ghost predicate Safe(p: seq<byte>, mac: Mac) {
    && |p| >= HEADER_SIZE
    && (p[0] == BOOTREPLY && p[28..34] == mac ==>
          |p| >= OPTIONS_START && !Walk(p[OPTIONS_START..], ERROR, NO_LEASE).Overrun?)
  }

  /** The message type and lease fields that parsing a payload leaves. */
  function Parsed(p: seq<byte>, mac: Mac, low: u32, high: u32, l: Lease): Walked
    requires |p| >= HEADER_SIZE
  {
    if ForUs(p, mac, low, high) && |p| >= OPTIONS_START then
      Walk(p[OPTIONS_START..], ERROR, l.(ip := Decode(p).yiaddr))
    else Done(ERROR, l, false)
  }

  lemma SafeParses(p: seq<byte>, mac: Mac, low: u32, high: u32, l: Lease)
    requires Safe(p, mac)
    ensures Parsed(p, mac, low, high, l).Done?
  {
    if ForUs(p, mac, low, high) {
      WalkFieldsIrrelevant(p[OPTIONS_START..], ERROR, NO_LEASE, ERROR, l.(ip := Decode(p).yiaddr));
    }
  }

  lemma {:induction false} PadsSkipped(n: nat, rest: seq<byte>)
    ensures Options(ZeroBytes(n) + rest) == Options(rest)
    decreases n
  {
    if n == 0 {
      assert ZeroBytes(0) + rest == rest;
    } else {
      assert ZeroBytes(n) + rest == [PAD] + (ZeroBytes(n - 1) + rest);
      assert ([PAD] + (ZeroBytes(n - 1) + rest))[1..] == ZeroBytes(n - 1) + rest;
      PadsSkipped(n - 1, rest);
    }
  }

  lemma OptionFirst(o: Opt, rest: seq<byte>)
    requires WellFormed(o)
    ensures Options(EncodeOpt(o) + rest) == [o] + Options(rest)
  {
    var p := EncodeOpt(o) + rest;
    assert p[0] == o.code && p[1] == |o.value| && p[2..2 + |o.value|] == o.value && p[2 + |o.value|..] == rest;
  }

  /** By the standard, pads make no difference at all. */
  lemma {:induction false} AreaRoundTrip(pads: seq<nat>, opts: seq<Opt>, trail: seq<byte>)
    requires |pads| == |opts| + 1 && AllWellFormed(opts)
    ensures Options(Area(pads, opts, trail)) == opts
    decreases |opts|
  {
    if opts == [] {
      PadsSkipped(pads[0], [END] + trail);
    } else {
      var rest := Area(pads[1..], opts[1..], trail);
      PadsSkipped(pads[0], EncodeOpt(opts[0]) + rest);
      OptionFirst(opts[0], rest);
      hide Options, EncodeOpt;
      AreaRoundTrip(pads[1..], opts[1..], trail);
      assert [opts[0]] + opts[1..] == opts;
    }
  }

  /** A single pad in front of an ACK: the standard reads the message type, the client does not. */
  lemma PadHidesAck(kind: byte, l: Lease)
    ensures var p := Area([1, 51], [ACK_TYPE], []);
      Options(p) == [ACK_TYPE] && Walk(p, kind, l) == Done(kind, l, true)
  {
    var rest := ZeroBytes(51) + ([END] + []);
    var p := EncodeOpt(ACK_TYPE) + rest;
    AreaRoundTrip([1, 51], [ACK_TYPE], []);
    TwoRuns(1, 51);
    LastPadLeft(1, p, kind, l);
    PadMisread(p, kind, l);
    assert p == [MESSAGE_TYPE, 1, ACK] + rest;
    assert p[54..] == rest[51..] == [END];
    hide Area, Options, EncodeOpt;
  }

  lemma TwoRuns(n: nat, m: nat)
    ensures Area([n, m], [ACK_TYPE], []) == ZeroBytes(n) + (EncodeOpt(ACK_TYPE) + (ZeroBytes(m) + ([END] + [])))
  {
    assert [n, m][1..] == [m] && [ACK_TYPE][1..] == [];
    assert Area([m], [], []) == ZeroBytes(m) + ([END] + []);
  }

  /**
   A reply for us whose options are well formed and closed by END, with pads in pairs only, is
   safe, and parsing it gives its address and exactly what its options mean.
   */
  lemma ReplyParses(head: seq<byte>, pads: seq<nat>, opts: seq<Opt>, trail: seq<byte>,
                    mac: Mac, low: u32, high: u32, l: Lease)
    requires |head| == 240 && head[0] == 2 && head[28..34] == mac && low <= Be32(head[4..8]) <= high
    requires |pads| == |opts| + 1 && AllWellFormed(opts) && AllEven(pads)
    ensures var p := head + Area(pads, opts, trail);
      var r := Parsed(p, mac, low, high, l);
      && Safe(p, mac)
      && Options(p[240..]) == opts
      && r.Done? && r.ended
      && Means(opts, ERROR, l.(ip := head[16..20]), r.kind, r.lease)
  {
    var options := Area(pads, opts, trail);
    var p := head + options;
    assert p[OPTIONS_START..] == options;
    AreaRoundTrip(pads, opts, trail);
    assert Decode(p) == Decode(head) by {
      assert p[4..8] == head[4..8] && p[12..16] == head[12..16] && p[16..20] == head[16..20];
      assert p[20..24] == head[20..24] && p[24..28] == head[24..28] && p[28..34] == head[28..34];
    }
    WalkMeans(pads, opts, trail, ERROR, l.(ip := Decode(p).yiaddr));
    WalkMeans(pads, opts, trail, ERROR, NO_LEASE);
    hide Walk, Means, Area, Decode, Options;
  }
}

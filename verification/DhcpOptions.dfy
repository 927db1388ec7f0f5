/** DHCP options (section 2 of RFC 2132): the client's walk over them, and what they mean. */
module DhcpOptions {
  import opened Words

  const SUBNET_MASK: byte := 1
  const ROUTERS: byte := 3
  const DNS_SERVERS: byte := 6
  const CLIENT_HOSTNAME: byte := 12
  const DOMAIN_NAME: byte := 15
  const REQUESTED_IP: byte := 50
  const LEASE_TIME: byte := 51
  const MESSAGE_TYPE: byte := 53
  const SERVER_IDENTIFIER: byte := 54
  const PARAM_REQUEST: byte := 55
  const T1_VALUE: byte := 58
  const T2_VALUE: byte := 59
  const CLIENT_IDENTIFIER: byte := 61
  const PAD: byte := 0
  const END: byte := 255

  const DISCOVER: byte := 1
  const OFFER: byte := 2
  const REQUEST: byte := 3
  const ACK: byte := 5
  const NAK: byte := 6
  const ERROR: byte := 255

  type Address = Ipv4

  /** The client's lease fields. */
  datatype Lease = Lease(ip: Address, server: Address, mask: Address, gateway: Address, dns: Address,
                         duration: u32)

  const NO_ADDRESS: Address := [0, 0, 0, 0]
  const NO_LEASE := Lease(NO_ADDRESS, NO_ADDRESS, NO_ADDRESS, NO_ADDRESS, NO_ADDRESS, 0)

  /**
   What the option loop makes of the bytes left in a packet. `Done` carries the message type and
   the fields, and whether an END option was met; `Overrun` means a read beyond the packet.
   */
  datatype Walked = Done(kind: byte, lease: Lease, ended: bool) | Overrun

  /** How many bytes a pass of the loop takes, option code included. */
  function Span(p: seq<byte>): nat
    requires |p| >= 2
  {
    if p[0] == MESSAGE_TYPE then 3
    else if p[0] == SUBNET_MASK || p[0] == SERVER_IDENTIFIER || p[0] == LEASE_TIME then 6
    else 2 + p[1] as int
  }

  /** Every read of one pass stays within the packet. */
  predicate Fits(p: seq<byte>) {
    && |p| >= 2
    && Span(p) <= |p|
    && (p[0] == ROUTERS || p[0] == DNS_SERVERS ==> p[1] >= 4)
  }

  /** One pass of the option loop, at an option other than END. */
  function Pass(p: seq<byte>, kind: byte, l: Lease): (byte, Lease)
    requires Fits(p)
  {
    if p[0] == MESSAGE_TYPE then (p[2], l)
    else if p[0] == SUBNET_MASK then (kind, l.(mask := p[2..6]))
    else if p[0] == ROUTERS then (kind, l.(gateway := p[2..6]))
    else if p[0] == DNS_SERVERS then (kind, l.(dns := p[2..6]))
    else if p[0] == SERVER_IDENTIFIER then (kind, l.(server := p[2..6]))
    else if p[0] == LEASE_TIME then (kind, l.(duration := Be32(p[2..6])))
    else (kind, l)
  }

  function Walk(p: seq<byte>, kind: byte, l: Lease): Walked
    decreases |p|
  {
    if p == [] then Done(kind, l, false)
    else if p[0] == END then Done(kind, l, true)
    else if !Fits(p) then Overrun
    else
      var (kind', l') := Pass(p, kind, l);
      Walk(p[Span(p)..], kind', l')
  }

  /** Whether the walk overruns does not depend on the fields it started from. */
  lemma {:induction false} WalkFieldsIrrelevant(p: seq<byte>, k1: byte, l1: Lease, k2: byte, l2: Lease)
    ensures Walk(p, k1, l1).Overrun? <==> Walk(p, k2, l2).Overrun?
    decreases |p|
  {
    if p != [] && p[0] != END && Fits(p) {
      var (k1', l1') := Pass(p, k1, l1);
      var (k2', l2') := Pass(p, k2, l2);
      WalkFieldsIrrelevant(p[Span(p)..], k1', l1', k2', l2');
    }
  }

  // ---- Options as the standard lays them out ----

  type Value = v: seq<byte> | |v| < 256

  datatype Opt = Opt(code: byte, value: Value)

  /**
   Lengths as RFC 2132 fixes them for the options the client reads; anything for the others. Here
   and in `Means` the codes are the standard's numbers: 53 message type, 1 subnet mask, 54 server
   identifier, 51 lease time, 3 routers, 6 name servers, 0 pad and 255 end.
   */
  ghost predicate WellFormed(o: Opt) {
    && o.code != 0 && o.code != 255
    && (o.code == 53 ==> |o.value| == 1)
    && (o.code == 1 || o.code == 54 || o.code == 51 ==> |o.value| == 4)
    && (o.code == 3 || o.code == 6 ==> |o.value| >= 4)
  }

  function EncodeOpt(o: Opt): seq<byte> {
    [o.code, |o.value|] + o.value
  }

  function Encode(opts: seq<Opt>): seq<byte> {
    if opts == [] then [] else EncodeOpt(opts[0]) + Encode(opts[1..])
  }

  /** The value of the last option with a given code. */
  function LastValue(opts: seq<Opt>, code: byte, default: seq<byte>): seq<byte> {
    if opts == [] then default
    else if opts[|opts| - 1].code == code then opts[|opts| - 1].value
    else LastValue(opts[..|opts| - 1], code, default)
  }

  lemma {:induction false} LastValueFront(opts: seq<Opt>, code: byte, default: seq<byte>)
    requires opts != []
    ensures LastValue(opts, code, default)
         == LastValue(opts[1..], code, if opts[0].code == code then opts[0].value else default)
    decreases |opts|
  {
    var n := |opts| - 1;
    if n > 0 && opts[n].code != code {
      LastValueFront(opts[..n], code, default);
      assert opts[..n][1..] == opts[1..][..n - 1];
    }
  }

  ghost predicate AllWellFormed(opts: seq<Opt>) {
    forall o | o in opts :: WellFormed(o)
  }

  /**
   What a list of options says: for each code the last value counts, and of a list of routers or
   name servers the first. Codes that do not occur leave the field alone.
   */
  ghost predicate Means(opts: seq<Opt>, kind: byte, l: Lease, kind': byte, l': Lease) {
    && [kind'] == LastValue(opts, 53, [kind])
    && l'.mask == LastValue(opts, 1, l.mask)
    && l'.server == LastValue(opts, 54, l.server)
    && Bytes32(l'.duration) == LastValue(opts, 51, Bytes32(l.duration))
    && l'.gateway <= LastValue(opts, 3, l.gateway)
    && l'.dns <= LastValue(opts, 6, l.dns)
    && l'.ip == l.ip
  }

  lemma Bytes32OfBe32(b: seq<byte>)
    requires |b| == 4
    ensures Bytes32(Be32(b)) == b
  {
    var v := Be32(b);
    var high := (b[0] as int) * 0x1_0000 + (b[1] as int) * 0x100 + b[2] as int;
    assert v == high * 0x100 + b[3];
    var top := (b[0] as int) * 0x100 + b[1] as int;
    assert high == top * 0x100 + b[2];
    assert v / 0x100 == high && v / 0x1_0000 == top && v / 0x100_0000 == b[0];
  }

  lemma {:induction false} LastValuePrefix(opts: seq<Opt>, code: byte, d1: seq<byte>, d2: seq<byte>)
    requires d1 <= d2
    ensures LastValue(opts, code, d1) <= LastValue(opts, code, d2)
    decreases |opts|
  {
    if opts != [] {
      LastValuePrefix(opts[..|opts| - 1], code, d1, d2);
    }
  }

  /** One well-formed option is taken by one pass of the loop, which sets what the option says. */
  lemma PassTakesOption(o: Opt, rest: seq<byte>, kind: byte, l: Lease)
    requires WellFormed(o)
    ensures var p := EncodeOpt(o) + rest;
      Fits(p) && p[0] == o.code && p[Span(p)..] == rest
    ensures var (kind', l') := Pass(EncodeOpt(o) + rest, kind, l);
      Means([o], kind, l, kind', l')
  {
    var p := EncodeOpt(o) + rest;
    assert p[0] == o.code && p[1] == |o.value|;
    assert p[2..2 + |o.value|] == o.value;
    assert p[2 + |o.value|..] == rest;
    if |o.value| >= 4 {
      assert p[2..6] == o.value[..4];
    }
    if o.code == LEASE_TIME {
      Bytes32OfBe32(o.value);
    }
    assert forall c, d: seq<byte> :: LastValue([o], c, d) == if o.code == c then o.value else d by {
      assert [o][..0] == [];
    }
    hide LastValue, Be32, Bytes32;
  }

  lemma MeansComposes(o: Opt, rest: seq<Opt>, k0: byte, l0: Lease, k1: byte, l1: Lease, k2: byte, l2: Lease)
    requires Means([o], k0, l0, k1, l1) && Means(rest, k1, l1, k2, l2)
    requires WellFormed(o)
    ensures Means([o] + rest, k0, l0, k2, l2)
  {
    var all := [o] + rest;
    assert all[1..] == rest && [o][1..] == [];
    forall c, d: seq<byte>
      ensures LastValue(all, c, d) == LastValue(rest, c, LastValue([o], c, d))
    {
      LastValueFront(all, c, d);
      LastValueFront([o], c, d);
    }
    hide LastValue, Bytes32;
    LastValuePrefix(rest, ROUTERS, l1.gateway, LastValue([o], ROUTERS, l0.gateway));
    LastValuePrefix(rest, DNS_SERVERS, l1.dns, LastValue([o], DNS_SERVERS, l0.dns));
  }

  // ---- Pads ----

  /**
   A pad byte has no length (section 3.1 of RFC 2132), but the walk gives it one: the code of the
   option behind it is taken for that length, and as many bytes again are skipped unread.
   */
  lemma PadMisread(rest: seq<byte>, kind: byte, l: Lease)
    ensures Walk([PAD] + rest, kind, l)
         == if rest == [] || 1 + rest[0] as int > |rest| then Overrun else Walk(rest[1 + rest[0] as int..], kind, l)
  {
    var p := [PAD] + rest;
    if |p| >= 2 && Span(p) <= |p| {
      assert p[Span(p)..] == rest[1 + rest[0] as int..];
    }
  }

  /** Pads in pairs are taken for empty options with code 0, and skipped. */
  lemma {:induction false} PairsSkipped(n: nat, rest: seq<byte>, kind: byte, l: Lease)
    requires n % 2 == 0
    ensures Walk(ZeroBytes(n) + rest, kind, l) == Walk(rest, kind, l)
    decreases n
  {
    if n == 0 {
      assert ZeroBytes(0) + rest == rest;
    } else {
      var tail := ZeroBytes(n - 2) + rest;
      var p := ZeroBytes(n) + rest;
      assert p == [PAD, PAD] + tail;
      assert p[2..] == tail;
      PairsSkipped(n - 2, rest, kind, l);
    }
  }

  /** Of an odd run the last pad is left. */
  lemma LastPadLeft(n: nat, rest: seq<byte>, kind: byte, l: Lease)
    requires n % 2 == 1
    ensures Walk(ZeroBytes(n) + rest, kind, l) == Walk([PAD] + rest, kind, l)
  {
    assert ZeroBytes(n) + rest == ZeroBytes(n - 1) + ([PAD] + rest);
    PairsSkipped(n - 1, [PAD] + rest, kind, l);
  }

  /**
   Options closed by END and followed by anything, with a run of pads in front of each option and
   of END. The length of the runs is in `pads`.
   */
  function Area(pads: seq<nat>, opts: seq<Opt>, trail: seq<byte>): seq<byte>
    requires |pads| == |opts| + 1
  {
    ZeroBytes(pads[0])
    + if opts == [] then [255] + trail else EncodeOpt(opts[0]) + Area(pads[1..], opts[1..], trail)
  }

  ghost predicate AllEven(pads: seq<nat>) {
    forall k | 0 <= k < |pads| :: pads[k] % 2 == 0
  }

  /** The walk over an area stops at END, with exactly the type and the fields its options mean. */
  ghost predicate ReadsArea(pads: seq<nat>, opts: seq<Opt>, trail: seq<byte>, kind: byte, l: Lease)
    requires |pads| == |opts| + 1
  {
    var w := Walk(Area(pads, opts, trail), kind, l);
    w.Done? && w.ended && Means(opts, kind, l, w.kind, w.lease)
  }

  lemma AreaStep(pads: seq<nat>, opts: seq<Opt>, trail: seq<byte>, kind: byte, l: Lease)
    requires |pads| == |opts| + 1 && opts != [] && pads[0] % 2 == 0 && WellFormed(opts[0])
    ensures exists kind', l' ::
      && Means([opts[0]], kind, l, kind', l')
      && Walk(Area(pads, opts, trail), kind, l) == Walk(Area(pads[1..], opts[1..], trail), kind', l')
  {
    var tail := Area(pads[1..], opts[1..], trail);
    var p := EncodeOpt(opts[0]) + tail;
    PairsSkipped(pads[0], p, kind, l);
    PassTakesOption(opts[0], tail, kind, l);
    var (kind', l') := Pass(p, kind, l);
    hide Means, Pass, Span, Fits;
  }

  /** Any well-formed options are read rightly, as long as all runs of pads are even. */
  lemma {:induction false} WalkMeans(pads: seq<nat>, opts: seq<Opt>, trail: seq<byte>, kind: byte, l: Lease)
    requires |pads| == |opts| + 1 && AllWellFormed(opts) && AllEven(pads)
    ensures ReadsArea(pads, opts, trail, kind, l)
    decreases |opts|
  {
    if opts == [] {
      PairsSkipped(pads[0], [END] + trail, kind, l);
    } else {
      AreaStep(pads, opts, trail, kind, l);
      hide Walk, Area, Means;
      var kind', l' :| Means([opts[0]], kind, l, kind', l')
        && Walk(Area(pads, opts, trail), kind, l) == Walk(Area(pads[1..], opts[1..], trail), kind', l');
      WalkMeans(pads[1..], opts[1..], trail, kind', l');
      var w := Walk(Area(pads[1..], opts[1..], trail), kind', l');
      MeansComposes(opts[0], opts[1..], kind, l, kind', l', w.kind, w.lease);
      assert [opts[0]] + opts[1..] == opts;
    }
  }

  /** Whatever well-formed options stand between these pads, they are read rightly. */
  ghost predicate Harmless(pads: seq<nat>)
    requires pads != []
  {
    forall opts, trail, kind, l | |pads| == |opts| + 1 && AllWellFormed(opts) :: ReadsArea(pads, opts, trail, kind, l)
  }

  lemma {:induction false} NoTypeNoChange(p: seq<byte>, kind: byte, l: Lease)
    requires NoType(p)
    ensures var w := Walk(p, kind, l); w.Done? ==> w.kind == kind
    decreases |p|
  {
    if p != [] && p[0] != END && Fits(p) {
      var (kind', l') := Pass(p, kind, l);
      NoTypeNoChange(p[Span(p)..], kind', l');
    }
  }

  const EMPTY_NAME := Opt(CLIENT_HOSTNAME, [])
  const ACK_TYPE := Opt(MESSAGE_TYPE, [ACK])

  /** Empty host names, the one at `k`, if there is one, replaced by the message type. */
  ghost predicate NamesBut(opts: seq<Opt>, k: nat) {
    forall i | 0 <= i < |opts| :: opts[i] == if i == k then ACK_TYPE else EMPTY_NAME
  }

  predicate NoType(p: seq<byte>) {
    MESSAGE_TYPE !in p
  }

  lemma NoTypeInName(n: nat, tail: seq<byte>)
    requires NoType(tail)
    ensures NoType(ZeroBytes(n) + (EncodeOpt(EMPTY_NAME) + tail))
  {
    assert EncodeOpt(EMPTY_NAME) == [CLIENT_HOSTNAME, 0];
  }

  lemma NoTypeInEnd(n: nat)
    ensures NoType(ZeroBytes(n) + ([END] + []))
  {
  }

  lemma {:induction false} NamesHaveNoType(pads: seq<nat>, opts: seq<Opt>)
    requires |pads| == |opts| + 1 && NamesBut(opts, |opts|)
    ensures NoType(Area(pads, opts, []))
    decreases |opts|
  {
    if opts == [] {
      NoTypeInEnd(pads[0]);
      hide NoType;
    } else {
      hide NoType, EncodeOpt;
      NamesHaveNoType(pads[1..], opts[1..]);
      NoTypeInName(pads[0], Area(pads[1..], opts[1..], []));
    }
  }

  lemma {:induction false} NamesKeepLast(opts: seq<Opt>, d: seq<byte>)
    requires NamesBut(opts, |opts|)
    ensures LastValue(opts, MESSAGE_TYPE, d) == d
    decreases |opts|
  {
    if opts != [] {
      NamesKeepLast(opts[..|opts| - 1], d);
    }
  }

  lemma WalkPast(n: nat, tail: seq<byte>, kind: byte, l: Lease)
    requires n % 2 == 0
    ensures Walk(ZeroBytes(n) + (EncodeOpt(EMPTY_NAME) + tail), kind, l) == Walk(tail, kind, l)
  {
    var p := EncodeOpt(EMPTY_NAME) + tail;
    PairsSkipped(n, p, kind, l);
    assert p == [CLIENT_HOSTNAME, 0] + tail && p[2..] == tail;
  }

  /** An odd run swallows the message type behind it. */
  lemma TypeSwallowed(n: nat, tail: seq<byte>, kind: byte, l: Lease)
    requires n % 2 == 1 && NoType(tail)
    ensures var w := Walk(ZeroBytes(n) + (EncodeOpt(ACK_TYPE) + tail), kind, l); w.Done? ==> w.kind == kind
  {
    var p := EncodeOpt(ACK_TYPE) + tail;
    LastPadLeft(n, p, kind, l);
    PadMisread(p, kind, l);
    assert p == [MESSAGE_TYPE, 1, ACK] + tail;
    if 1 + p[0] as int <= |p| {
      assert p[1 + p[0] as int..] == tail[51..];
      NoTypeNoChange(tail[51..], kind, l);
    }
  }

  lemma EndSwallowed(n: nat, kind: byte, l: Lease)
    requires n % 2 == 1
    ensures Walk(ZeroBytes(n) + ([END] + []), kind, l).Overrun?
  {
    LastPadLeft(n, [END] + [], kind, l);
    PadMisread([END] + [], kind, l);
  }

  /** Such options say ACK, but a walk that gets through them at all has not seen that. */
  lemma {:induction false} TypeLost(pads: seq<nat>, opts: seq<Opt>, k: nat, kind: byte, l: Lease)
    requires |pads| == |opts| + 1 && NamesBut(opts, k)
    requires k < |pads| && pads[k] % 2 == 1 && AllEven(pads[..k])
    ensures var w := Walk(Area(pads, opts, []), kind, l); w.Done? ==> k < |opts| && w.kind == kind
    decreases k
  {
    hide Walk, NoType, EncodeOpt;
    if opts == [] {
      EndSwallowed(pads[0], kind, l);
    } else if k == 0 {
      NamesHaveNoType(pads[1..], opts[1..]);
      TypeSwallowed(pads[0], Area(pads[1..], opts[1..], []), kind, l);
    } else {
      assert pads[0] == pads[..k][0] && pads[1..][..k - 1] == pads[..k][1..];
      WalkPast(pads[0], Area(pads[1..], opts[1..], []), kind, l);
      TypeLost(pads[1..], opts[1..], k - 1, kind, l);
    }
  }

  lemma {:induction false} TypeSaid(opts: seq<Opt>, k: nat, d: seq<byte>)
    requires k < |opts| && NamesBut(opts, k)
    ensures LastValue(opts, MESSAGE_TYPE, d) == [ACK]
    decreases |opts|
  {
    if k < |opts| - 1 {
      TypeSaid(opts[..|opts| - 1], k, d);
    }
  }

  /**
   Pads do no harm, whatever options stand between them, if and only if every run of them is
   even; by section 3.1 of RFC 2132 they never should.
   */
  lemma HarmlessIffEven(pads: seq<nat>)
    requires pads != []
    ensures Harmless(pads) <==> AllEven(pads)
  {
    if AllEven(pads) {
      forall opts, trail, kind, l | |pads| == |opts| + 1 && AllWellFormed(opts)
        ensures ReadsArea(pads, opts, trail, kind, l)
      {
        WalkMeans(pads, opts, trail, kind, l);
      }
    } else {
      var k := FirstOdd(pads);
      var opts := seq(|pads| - 1, i => if i == k then ACK_TYPE else EMPTY_NAME);
      TypeLost(pads, opts, k, ERROR, NO_LEASE);
      if k < |opts| {
        TypeSaid(opts, k, [ERROR]);
      }
      assert !ReadsArea(pads, opts, [], ERROR, NO_LEASE);
    }
  }

  lemma {:induction false} FirstOdd(pads: seq<nat>) returns (k: nat)
    requires !AllEven(pads)
    ensures k < |pads| && pads[k] % 2 == 1 && AllEven(pads[..k])
    decreases |pads|
  {
    if pads[0] % 2 == 1 {
      k := 0;
    } else {
      assert pads == [pads[0]] + pads[1..];
      k := FirstOdd(pads[1..]);
      k := k + 1;
      assert pads[..k] == [pads[0]] + pads[1..][..k - 1];
    }
  }
}

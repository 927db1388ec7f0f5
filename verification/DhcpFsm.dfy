/**
 The DHCP client as a transition system: an `Input` gathers everything one update sees from
 outside, and `Step` is what `Client::update` makes of it (section 4.4 of RFC 2131).
 */
module DhcpFsm {
  import opened Words
  import opened DhcpOptions

  const DISCOVER_INTERVAL: nat := 1000
  const REQUEST_RETRY: nat := 1000
  const REQUEST_TIMEOUT: nat := 10000
  const DEFAULT_LEASE: u32 := 86400

  const BROADCAST: Address := [255, 255, 255, 255]

  datatype Phase = Start | Discover | Request | Leased | Renew

  /** The chip's address registers. */
  datatype NetConfig = NetConfig(gateway: Address, mask: Address, ip: Address)

  const UNCONFIGURED := NetConfig(NO_ADDRESS, NO_ADDRESS, NO_ADDRESS)

  function ConfigOf(l: Lease): NetConfig {
    NetConfig(l.gateway, l.mask, l.ip)
  }

  /** A packet the client sent; `at` is the clock reading taken while writing it. */
  datatype Message = Message(kind: byte, xid: u32, started: nat, at: nat, lease: Lease, dest: Address)

  /**
   Bookkeeping about the run so far; no step depends on it.
   `log` holds every packet sent, `session` how many of them precede the current session, and
   `bumps` how often the transaction id was incremented in it. `retries` counts the requests
   repeated since the last OFFER or entry of Renew, and `gap` is the time between the two clock
   readings behind the OFFER's request. `isOpen` tells whether the client opened its socket, and
   `offers` the servers whose offers it took since.
   */
  datatype History = History(log: seq<Message>, session: nat, bumps: nat, retries: nat, gap: nat,
                             isOpen: bool, offers: seq<Address>)

  datatype Machine = Machine(
    phase: Phase, initialXid: u32, xid: u32, lease: Lease, t1: u32, t2: u32, started: nat,
    lastDiscover: nat, firstRequest: nat, lastRequest: nat, renewAt: nat, rebindAt: nat,
    net: NetConfig, dest: Address, history: History)

  datatype Link = Ready | Opened | Down

  /** The message type and the fields that parsing left, and the transaction id of what was parsed. */
  datatype Reply = Reply(kind: byte, lease: Lease, xid: u32)

  const NOTHING := Reply(ERROR, NO_LEASE, 0)

  /**
   What one update sees: the state of the socket, a random number, the RECV flag, what parsing
   gave in case the flag was up, and four clock readings in the order they are taken.
   */
  datatype Input = Input(link: Link, random: u32, recv: bool, reply: Reply, c0: nat, c1: nat, c2: nat, c3: nat)

  ghost predicate Legal(i: Input) {
    i.c0 <= i.c1 <= i.c2 <= i.c3
  }

  /** The test `parse_dhcp_response` makes on the transaction id of a reply. */
  predicate InRange(m: Machine, id: u32) {
    m.initialXid <= id <= m.xid
  }

  /** A reply that gives a message type or changes a field has passed that test. */
  ghost predicate Admitted(m: Machine, i: Input) {
    i.recv && (i.reply.kind != ERROR || i.reply.lease != m.lease) ==> InRange(m, i.reply.xid)
  }

  /** No time stamp lies in the future. */
  ghost predicate Past(m: Machine, now: nat) {
    m.started <= now && m.lastDiscover <= now && m.firstRequest <= now && m.lastRequest <= now
  }

  /** The machine with one more packet sent. */
  function Say(m: Machine, kind: byte, at: nat): Machine {
    m.(history := m.history.(log := m.history.log + [Message(kind, m.xid, m.started, at, m.lease, m.dest)]))
  }

  /** No lease, and no addresses on the chip. */
  function Cleared(m: Machine): Machine {
    m.(lease := NO_LEASE, net := UNCONFIGURED)
  }

  /** Only a socket just opened has its destination set. */
  function Linked(m: Machine, link: Link): Machine {
    if link == Opened then m.(dest := BROADCAST, history := m.history.(isOpen := true, offers := [])) else m
  }

  /** A new session under a random id. */
  function Session(m: Machine, random: u32, started: nat): Machine {
    m.(initialXid := random, xid := random, started := started,
       history := m.history.(session := |m.history.log|, bumps := 0))
  }

  /** The session's first DISCOVER. */
  function Begun(m: Machine, i: Input): Machine {
    Say(Session(m, i.random, i.c0), DISCOVER, i.c1).(lastDiscover := i.c2, phase := Discover)
  }

  lemma PastBegun(m: Machine, i: Input, before: nat, now: nat)
    requires Past(m, before) && Legal(i) && before <= i.c0 && i.c2 <= now
    ensures Past(Begun(m, i), now)
  {
  }

  function StepStart(m: Machine, i: Input): Machine {
    if i.link == Down then Cleared(m) else Begun(Linked(Cleared(m), i.link), i)
  }

  /** The machine with the fields a reply left, if there was one. */
  function Listened(m: Machine, i: Input): Machine {
    if i.recv then m.(lease := i.reply.lease) else m
  }

  function Chosen(m: Machine): Machine {
    var h := m.history;
    m.(dest := m.lease.server, history := h.(offers := h.offers + [m.lease.server], retries := 0))
  }

  function Stamped(m: Machine, last: nat, first: nat): Machine
    requires last <= first
  {
    m.(lastRequest := last, firstRequest := first, phase := Request, history := m.history.(gap := first - last))
  }

  function OfferTaken(m: Machine, i: Input): Machine
    requires Legal(i)
  {
    Stamped(Say(Chosen(m), REQUEST, i.c0), i.c1, i.c2)
  }

  function Bumped(m: Machine): Machine {
    m.(xid := Wrap32(m.xid + 1), history := m.history.(bumps := m.history.bumps + 1))
  }

  function Rediscovered(m: Machine, i: Input): Machine {
    if i.c0 - m.lastDiscover > DISCOVER_INTERVAL then Say(Bumped(m), DISCOVER, i.c1).(lastDiscover := i.c2)
    else m
  }

  function StepDiscover(m: Machine, i: Input): Machine
    requires Legal(i)
  {
    if i.recv && i.reply.kind == OFFER then OfferTaken(Listened(m, i), i) else Rediscovered(Listened(m, i), i)
  }

  /** The lease as an accepted ACK leaves it, with the default duration filled in. */
  function Accepted(l: Lease): Lease {
    if l.duration == 0 then l.(duration := DEFAULT_LEASE) else l
  }

  function HalfLease(duration: u32): u32 {
    duration / 2
  }

  /** Seven eighths of the duration, rounded down. */
  function SevenEighths(duration: u32): u32 {
    7 * duration / 8
  }

  /** A lease taken: the client's fields on the chip, timers unless already set, and deadlines. */
  function Bound(m: Machine, i: Input): Machine {
    var lease := Accepted(m.lease);
    var t1 := if m.t1 == 0 then HalfLease(lease.duration) else m.t1;
    var t2 := if m.t2 == 0 then SevenEighths(lease.duration) else m.t2;
    m.(phase := Leased, lease := lease, t1 := t1, t2 := t2,
       renewAt := i.c0 + Wrap32(t1 * 1000), rebindAt := i.c1 + Wrap32(t2 * 1000), net := ConfigOf(lease))
  }

  function Retried(m: Machine): Machine {
    m.(history := m.history.(retries := m.history.retries + 1))
  }

  function Asked(m: Machine, i: Input): Machine {
    if i.c0 - m.lastRequest > REQUEST_RETRY then Say(Retried(m), REQUEST, i.c1).(lastRequest := i.c2) else m
  }

  function TimedOut(m: Machine, i: Input): Machine {
    if i.c3 - m.firstRequest > REQUEST_TIMEOUT then m.(phase := Start) else m
  }

  function StepRequest(m: Machine, i: Input): Machine {
    var heard := Listened(m, i);
    if i.recv && i.reply.kind == ACK then Bound(heard, i)
    else if i.recv && i.reply.kind == NAK then heard.(phase := Start)
    else TimedOut(Asked(heard, i), i)
  }

  /** A REQUEST step in two halves: what was heard, and what follows. */
  lemma RequestInHalves(m: Machine, i: Input, recv: bool, reply: Reply)
    requires Legal(i)
    ensures var heard := if recv then m.(lease := reply.lease) else m;
      StepRequest(m, i.(recv := recv, reply := reply))
      == if recv && reply.kind == ACK then Bound(heard, i)
         else if recv && reply.kind == NAK then heard.(phase := Start)
         else TimedOut(Asked(heard, i), i)
  {
    hide Wrap32, HalfLease, SevenEighths, Accepted;
  }

  function StepLeased(m: Machine, i: Input): Machine {
    if i.c0 > m.rebindAt then m.(phase := Start)
    else if i.c0 > m.renewAt then m.(phase := Renew, history := m.history.(retries := 0))
    else m
  }

  function Step(m: Machine, i: Input): Machine
    requires Legal(i)
  {
    match m.phase
    case Start => StepStart(m, i)
    case Discover => StepDiscover(m, i)
    case Request => StepRequest(m, i)
    case Renew => StepRequest(m, i)
    case Leased => StepLeased(m, i)
  }

  lemma PastKept(m: Machine, i: Input, before: nat, now: nat)
    requires Past(m, before) && Legal(i) && before <= i.c0 && i.c3 <= now
    ensures Past(m, now) && Past(Step(m, i), now)
  {
  }

  // ---- Runs ----

  ghost predicate Initial(m: Machine) {
    && m.phase == Start && m.initialXid == m.xid == 0
    && m.lease.duration == m.t1 == m.t2 == 0
    && m.started == m.lastDiscover == m.firstRequest == m.lastRequest == m.renewAt == m.rebindAt == 0
    && m.history == History([], 0, 0, 0, 0, false, [])
  }

  /** Update by update, on a clock that never runs backwards, and with only admitted replies of any effect. */
  ghost predicate Run(ms: seq<Machine>, ins: seq<Input>) {
    && |ms| == |ins| + 1
    && Initial(ms[0])
    && (forall k | 0 <= k < |ins| :: Legal(ins[k]) && Admitted(ms[k], ins[k]) && ms[k + 1] == Step(ms[k], ins[k]))
    && (forall k | 0 < k < |ins| :: ins[k - 1].c3 <= ins[k].c0)
  }

  /** The last clock reading before state `n`. */
  function TimeAt(ins: seq<Input>, n: nat): nat
    requires n <= |ins|
  {
    if n == 0 then 0 else ins[n - 1].c3
  }
}

/** What holds in every reachable state of the DHCP client, and over whole runs. */
module DhcpRuns {
  import opened Words
  import opened DhcpOptions
  import opened DhcpFsm

  // ---- Reachable states ----

  /** While no lease is held the chip has no addresses; while one is, it has the client's. */
  ghost predicate Addresses(m: Machine) {
    && (m.phase == Discover || m.phase == Request ==> m.net == UNCONFIGURED)
    && (m.phase == Leased ==> m.net == ConfigOf(m.lease) && m.lease.duration > 0)
  }

  ghost predicate Timers(m: Machine) {
    (m.t1 == 0 <==> m.t2 == 0) && m.t1 <= m.t2
  }

  /** Consecutive packets of one kind are more than a second apart. */
  ghost predicate Spaced(log: seq<Message>) {
    forall j | 0 < j < |log| && log[j - 1].kind == log[j].kind :: log[j - 1].at + 1000 < log[j].at
  }

  /** The last packet fits the phase, and its time the matching time stamp. */
  ghost predicate LastPacket(m: Machine) {
    var log := m.history.log;
    match m.phase
    case Start => log == [] || log[|log| - 1].kind == REQUEST
    case Discover => log != [] && log[|log| - 1].kind == DISCOVER && log[|log| - 1].at <= m.lastDiscover
    case _ => log != [] && log[|log| - 1].kind == REQUEST && log[|log| - 1].at <= m.lastRequest
  }

  /** The initial transaction id of a session, incremented `d` times. */
  function IdAt(initial: u32, d: nat): u32 {
    Wrap32(initial + d)
  }

  ghost predicate IsId(id: u32, initial: u32, bumps: nat) {
    exists d: nat :: d <= bumps && id == IdAt(initial, d)
  }

  /** An id sent since the session began. */
  ghost predicate SentId(log: seq<Message>, session: nat, id: u32) {
    exists j :: session <= j < |log| && log[j].xid == id
  }

  ghost predicate AllSent(log: seq<Message>, session: nat, initial: u32, bumps: nat) {
    forall d: nat | d <= bumps :: SentId(log, session, IdAt(initial, d))
  }

  ghost predicate OnlyThose(log: seq<Message>, session: nat, initial: u32, bumps: nat) {
    forall j | session <= j < |log| :: IsId(log[j].xid, initial, bumps)
  }

  /** The ids of the current session are the initial one and its successors, up to the latest. */
  ghost predicate SessionIds(m: Machine) {
    var h := m.history;
    && h.session <= |h.log|
    && m.xid == IdAt(m.initialXid, h.bumps)
    && (h.log == [] || AllSent(h.log, h.session, m.initialXid, h.bumps))
    && OnlyThose(h.log, h.session, m.initialXid, h.bumps)
  }

  /** Repeated requests cost more than a second each, and all fall within the timeout. */
  ghost predicate Retries(m: Machine) {
    if m.phase == Start || m.phase == Discover then 1001 * m.history.retries <= REQUEST_TIMEOUT + m.history.gap + 1001
    else
      && m.firstRequest + 1001 * m.history.retries <= m.lastRequest + m.history.gap
      && m.lastRequest <= m.firstRequest + REQUEST_TIMEOUT
  }

  /**
   Deadlines count from a reading no earlier than the request they answer; unless a product
   wraps, renewal comes before rebinding; Renew is entered only after the renewal deadline.
   */
  ghost predicate Deadlines(m: Machine, now: nat) {
    m.phase == Leased || m.phase == Renew ==>
      && m.firstRequest + Wrap32(m.t1 * 1000) <= m.renewAt
      && (m.t2 * 1000 < U32 ==> m.renewAt <= m.rebindAt)
      && (m.phase == Renew ==> m.renewAt < now)
  }

  /**
   Once the client has opened its socket: broadcast until the first offer it takes, and then to
   the last server it chose.
   */
  ghost predicate Destination(m: Machine) {
    var offers := m.history.offers;
    m.history.isOpen ==>
      && m.dest == (if offers == [] then BROADCAST else offers[|offers| - 1])
      && (m.phase != Start && m.phase != Discover ==> offers != [])
  }

  ghost predicate Inv(m: Machine, now: nat) {
    && Addresses(m) && Timers(m) && Past(m, now) && Spaced(m.history.log) && LastPacket(m)
    && SessionIds(m) && Retries(m) && Deadlines(m, now) && Destination(m)
  }

  lemma SaySpaced(log: seq<Message>, msg: Message)
    requires Spaced(log)
    requires log == [] || log[|log| - 1].kind != msg.kind || log[|log| - 1].at + 1000 < msg.at
    ensures Spaced(log + [msg])
  {
  }

  lemma SentAppend(log: seq<Message>, session: nat, id: u32, msg: Message)
    requires SentId(log, session, id) || (msg.xid == id && session <= |log|)
    ensures SentId(log + [msg], session, id)
  {
    if SentId(log, session, id) {
      var j :| session <= j < |log| && log[j].xid == id;
      assert (log + [msg])[j].xid == id;
    } else {
      assert (log + [msg])[|log|].xid == id;
    }
  }

  /** Sending under the `bumps`th id, new or not, extends what has been sent by just that id. */
  lemma SayIds(log: seq<Message>, session: nat, initial: u32, sofar: nat, bumps: nat, msg: Message)
    requires session <= |log| && sofar <= bumps <= sofar + 1 && msg.xid == IdAt(initial, bumps)
    requires AllSent(log, session, initial, sofar) && OnlyThose(log, session, initial, sofar)
    ensures AllSent(log + [msg], session, initial, bumps) && OnlyThose(log + [msg], session, initial, bumps)
  {
    forall d: nat | d <= bumps
      ensures SentId(log + [msg], session, IdAt(initial, d))
    {
      SentAppend(log, session, IdAt(initial, d), msg);
    }
    forall j | session <= j < |log + [msg]|
      ensures IsId((log + [msg])[j].xid, initial, bumps)
    {
      if j < |log| {
        assert IsId(log[j].xid, initial, sofar);
      } else {
        assert msg.xid == IdAt(initial, bumps);
      }
    }
  }

  lemma NextId(initial: u32, d: nat)
    ensures Wrap32(IdAt(initial, d) + 1) == IdAt(initial, d + 1)
  {
  }

  lemma FirstId(log: seq<Message>, initial: u32, msg: Message)
    requires msg.xid == initial
    ensures IdAt(initial, 0) == initial
    ensures AllSent(log + [msg], |log|, initial, 0) && OnlyThose(log + [msg], |log|, initial, 0)
  {
    assert IdAt(initial, 0) == initial;
    SentAppend(log, |log|, initial, msg);
  }

  lemma HalvesInOrder(d: u32)
    ensures HalfLease(d) <= SevenEighths(d)
    ensures HalfLease(d) == 0 <==> SevenEighths(d) == 0
  {
  }

  lemma StartKeeps(m: Machine, i: Input, now: nat)
    requires Legal(i) && now <= i.c0 && Inv(m, now) && m.phase == Start
    ensures Inv(StepStart(m, i), i.c3)
  {
    hide AllSent, OnlyThose, IdAt, Spaced;
    if i.link != Down {
      var h, m' := m.history, StepStart(m, i);
      FirstId(h.log, i.random, m'.history.log[|h.log|]);
      SaySpaced(h.log, m'.history.log[|h.log|]);
    }
  }

  lemma DiscoverKeeps(m: Machine, i: Input, now: nat)
    requires Legal(i) && now <= i.c0 && Inv(m, now) && m.phase == Discover
    ensures Inv(StepDiscover(m, i), i.c3)
  {
    hide AllSent, OnlyThose, IdAt, Spaced;
    var h, m' := m.history, StepDiscover(m, i);
    NextId(m.initialXid, h.bumps);
    if m'.history.log != h.log {
      SayIds(h.log, h.session, m.initialXid, h.bumps, m'.history.bumps, m'.history.log[|h.log|]);
      SaySpaced(h.log, m'.history.log[|h.log|]);
    }
  }

  lemma ProductsInOrder(t1: u32, t2: u32)
    requires t1 <= t2 && t2 * 1000 < U32
    ensures Wrap32(t1 * 1000) <= Wrap32(t2 * 1000)
  {
  }

  lemma AckKeeps(m: Machine, i: Input, now: nat)
    requires Legal(i) && now <= i.c0 && Inv(m, now) && (m.phase == Request || m.phase == Renew)
    requires i.recv && i.reply.kind == ACK
    ensures Inv(StepRequest(m, i), i.c3)
  {
    var m' := StepRequest(m, i);
    HalvesInOrder(Accepted(i.reply.lease).duration);
    if m'.t2 * 1000 < U32 {
      ProductsInOrder(m'.t1, m'.t2);
    }
    hide AllSent, OnlyThose, IdAt, Spaced, HalfLease, SevenEighths, Wrap32;
  }

  lemma RetryKeepsLog(m: Machine, i: Input)
    requires Legal(i) && (m.phase == Request || m.phase == Renew)
    requires Spaced(m.history.log) && LastPacket(m) && SessionIds(m)
    requires !(i.recv && i.reply.kind == ACK)
    ensures var m' := StepRequest(m, i); Spaced(m'.history.log) && LastPacket(m') && SessionIds(m')
  {
    hide AllSent, OnlyThose, IdAt, Spaced, Wrap32, ConfigOf;
    var h, m' := m.history, StepRequest(m, i);
    if m'.history.log != h.log {
      SayIds(h.log, h.session, m.initialXid, h.bumps, h.bumps, m'.history.log[|h.log|]);
      SaySpaced(h.log, m'.history.log[|h.log|]);
    }
  }

  lemma RetryKeepsCount(m: Machine, i: Input)
    requires Legal(i) && (m.phase == Request || m.phase == Renew)
    requires Retries(m) && m.firstRequest <= i.c0 && m.lastRequest <= i.c0
    requires !(i.recv && i.reply.kind == ACK)
    ensures Retries(StepRequest(m, i))
  {
  }

  lemma RetryKeepsNet(m: Machine, i: Input, now: nat)
    requires Legal(i) && now <= i.c0 && (m.phase == Request || m.phase == Renew)
    requires Addresses(m) && Timers(m) && Deadlines(m, now) && Destination(m)
    requires !(i.recv && i.reply.kind == ACK)
    ensures var m' := StepRequest(m, i); Addresses(m') && Timers(m') && Deadlines(m', i.c3) && Destination(m')
  {
    hide Wrap32, ConfigOf;
  }

  lemma RetryKeeps(m: Machine, i: Input, now: nat)
    requires Legal(i) && now <= i.c0 && Inv(m, now) && (m.phase == Request || m.phase == Renew)
    requires !(i.recv && i.reply.kind == ACK)
    ensures Inv(StepRequest(m, i), i.c3)
  {
    hide Spaced, SessionIds, LastPacket, Retries, Addresses, Timers, Deadlines, Destination;
    RetryKeepsLog(m, i);
    RetryKeepsCount(m, i);
    RetryKeepsNet(m, i, now);
  }

  lemma LeasedKeeps(m: Machine, i: Input, now: nat)
    requires Legal(i) && now <= i.c0 && Inv(m, now) && m.phase == Leased
    ensures Inv(StepLeased(m, i), i.c3)
  {
    hide AllSent, OnlyThose, IdAt, Spaced;
  }

  lemma StepKeeps(m: Machine, i: Input, now: nat)
    requires Legal(i) && now <= i.c0 && Inv(m, now)
    ensures Inv(Step(m, i), i.c3)
  {
    match m.phase
    case Start => StartKeeps(m, i, now);
    case Discover => DiscoverKeeps(m, i, now);
    case Request => if i.recv && i.reply.kind == ACK { AckKeeps(m, i, now); } else { RetryKeeps(m, i, now); }
    case Renew => if i.recv && i.reply.kind == ACK { AckKeeps(m, i, now); } else { RetryKeeps(m, i, now); }
    case Leased => LeasedKeeps(m, i, now);
  }

  lemma InitialHolds(m: Machine)
    requires Initial(m)
    ensures Inv(m, 0)
  {
    assert IdAt(0, 0) == 0;
  }

  /** Every state of every run satisfies the invariant. */
  lemma {:induction false} Reachable(ms: seq<Machine>, ins: seq<Input>, n: nat)
    requires Run(ms, ins) && n <= |ins|
    ensures Inv(ms[n], TimeAt(ins, n))
    decreases n
  {
    if n == 0 {
      InitialHolds(ms[0]);
    } else {
      Reachable(ms, ins, n - 1);
      hide Inv, Initial, Step;
      StepKeeps(ms[n - 1], ins[n - 1], TimeAt(ins, n - 1));
    }
  }

  /** One more update makes a longer run. */
  lemma RunExtends(ms: seq<Machine>, ins: seq<Input>, i: Input)
    requires Run(ms, ins) && Legal(i) && Admitted(ms[|ins|], i) && TimeAt(ins, |ins|) <= i.c0
    ensures Run(ms + [Step(ms[|ins|], i)], ins + [i])
  {
    hide Step;
    var ms', ins' := ms + [Step(ms[|ins|], i)], ins + [i];
    forall k | 0 <= k < |ins'|
      ensures Legal(ins'[k]) && Admitted(ms'[k], ins'[k]) && ms'[k + 1] == Step(ms'[k], ins'[k])
    {
      assert k < |ins| ==> ms'[k] == ms[k] && ms'[k + 1] == ms[k + 1] && ins'[k] == ins[k];
    }
    forall k | 0 < k < |ins'|
      ensures ins'[k - 1].c3 <= ins'[k].c0
    {
      assert k < |ins| ==> ins'[k - 1] == ins[k - 1] && ins'[k] == ins[k];
    }
  }

  // ---- Leases over a run ----

  /** Step `k` of a run starts a session, takes an offer, takes an acknowledgement. */
  ghost predicate Starts(ms: seq<Machine>, k: nat)
    requires k + 1 < |ms|
  {
    ms[k].phase == Start && ms[k + 1].phase == Discover
  }

  ghost predicate TakesOffer(ms: seq<Machine>, ins: seq<Input>, k: nat)
    requires k < |ins| && k + 1 < |ms|
  {
    ms[k].phase == Discover && ins[k].recv && ins[k].reply.kind == 2 && ms[k + 1].phase == Request
  }

  ghost predicate TakesAck(ms: seq<Machine>, ins: seq<Input>, k: nat)
    requires k < |ins| && k + 1 < |ms|
  {
    && (ms[k].phase == Request || ms[k].phase == Renew)
    && ins[k].recv && ins[k].reply.kind == 5 && ms[k + 1].phase == Leased
    && ms[k + 1].lease == Accepted(ins[k].reply.lease)
  }

  ghost predicate StartedAt(ms: seq<Machine>, n: nat, s: nat)
    requires n < |ms|
  {
    && s < n && Starts(ms, s) && ms[n].history.session == |ms[s].history.log|
    && forall k | s < k <= n :: ms[k].phase != Start
  }

  /** The reply heard in step `k` carries an id the client has sent since step `s`. */
  ghost predicate Answers(ms: seq<Machine>, ins: seq<Input>, s: nat, k: nat)
    requires s < |ms| && k < |ins| && k < |ms|
  {
    SentId(ms[k].history.log, |ms[s].history.log|, ins[k].reply.xid)
  }

  ghost predicate OfferedAt(ms: seq<Machine>, ins: seq<Input>, n: nat, s: nat, o: nat)
    requires |ms| == |ins| + 1 && n < |ms|
  {
    ms[n].phase != Discover ==> s < o < n && TakesOffer(ms, ins, o) && Answers(ms, ins, s, o)
  }

  ghost predicate AckedAt(ms: seq<Machine>, ins: seq<Input>, n: nat, s: nat, o: nat, a: nat)
    requires |ms| == |ins| + 1 && s < n < |ms|
  {
    ms[n].phase == Leased || ms[n].phase == Renew ==>
      && o < a < n && TakesAck(ms, ins, a) && Answers(ms, ins, s, a)
      && ms[n].net == ConfigOf(ms[a + 1].lease)
      && (ms[n].phase == Leased ==> ms[n].lease == ms[a + 1].lease)
      && (forall k | a < k <= n :: ms[k].phase == Leased || ms[k].phase == Renew)
  }

  /** Where the session of state `n`, its offer and its latest acknowledgement come from. */
  ghost predicate Provenance(ms: seq<Machine>, ins: seq<Input>, n: nat, s: nat, o: nat, a: nat)
    requires |ms| == |ins| + 1 && n < |ms|
  {
    StartedAt(ms, n, s) && OfferedAt(ms, ins, n, s, o) && AckedAt(ms, ins, n, s, o, a)
  }

  /** The moves between phases, and when the lease and the chip's addresses change with them. */
  lemma Moves(m: Machine, i: Input)
    requires Legal(i)
    ensures var m' := Step(m, i);
      match m.phase
      case Start => m'.phase == Start || m'.phase == Discover
      case Discover => m'.phase == if i.recv && i.reply.kind == OFFER then Request else Discover
      case Leased => m'.phase != Discover && m'.phase != Request && m'.net == m.net && m'.lease == m.lease
      case _ =>
        if i.recv && i.reply.kind == ACK then
          m'.phase == Leased && m'.lease == Accepted(i.reply.lease) && m'.net == ConfigOf(m'.lease)
        else (m'.phase == m.phase || m'.phase == Start) && m'.net == m.net
  {
  }

  /** A session lasts until the next return to Start. */
  lemma SessionMoves(m: Machine, i: Input)
    requires Legal(i)
    ensures var m' := Step(m, i);
      && (m.phase != Start ==> m'.history.session == m.history.session)
      && (m.phase == Start && m'.phase == Discover ==> m'.history.session == |m.history.log|)
  {
    hide Wrap32, HalfLease, SevenEighths, Accepted, ConfigOf;
  }

  /** Any id in range is one the client has sent in this session, even if ids have wrapped. */
  lemma InRangeWasSent(m: Machine, id: u32)
    requires SessionIds(m) && m.history.log != [] && InRange(m, id)
    ensures SentId(m.history.log, m.history.session, id)
  {
    hide SentId;
    assert IdAt(m.initialXid, id - m.initialXid) == id;
  }

  /** So an OFFER or ACK that has any effect answers something sent in the session at hand. */
  lemma AcceptedAnswers(ms: seq<Machine>, ins: seq<Input>, s: nat, k: nat)
    requires Run(ms, ins) && k < |ins| && ms[k].phase != Start && ms[k].phase != Leased
    requires s < |ms| && ms[k].history.session == |ms[s].history.log|
    requires ins[k].recv && ins[k].reply.kind != ERROR
    ensures Answers(ms, ins, s, k)
  {
    hide Step, Spaced, SessionIds, SentId;
    Reachable(ms, ins, k);
    assert Admitted(ms[k], ins[k]);
    InRangeWasSent(ms[k], ins[k].reply.xid);
  }

  lemma StartedNext(ms: seq<Machine>, ins: seq<Input>, n: nat, s: nat)
    requires Run(ms, ins) && 0 < n <= |ins| && ms[n].phase != Start
    requires if ms[n - 1].phase == Start then s == n - 1 else StartedAt(ms, n - 1, s)
    ensures StartedAt(ms, n, s)
  {
    Moves(ms[n - 1], ins[n - 1]);
    SessionMoves(ms[n - 1], ins[n - 1]);
    hide Step, Accepted, ConfigOf, Legal, Initial;
  }

  lemma OfferedNext(ms: seq<Machine>, ins: seq<Input>, n: nat, s: nat, o: nat) returns (o': nat)
    requires Run(ms, ins) && 0 < n <= |ins| && StartedAt(ms, n - 1, s)
    requires ms[n].phase != Start && OfferedAt(ms, ins, n - 1, s, o)
    ensures OfferedAt(ms, ins, n, s, o')
    ensures o' == if ms[n - 1].phase == Discover && ms[n].phase == Request then n - 1 else o
  {
    o' := if ms[n - 1].phase == Discover && ms[n].phase == Request then n - 1 else o;
    Moves(ms[n - 1], ins[n - 1]);
    hide Step, Accepted, ConfigOf, Legal, Initial, Answers;
    if ms[n - 1].phase == Discover && ms[n].phase == Request {
      AcceptedAnswers(ms, ins, s, n - 1);
    }
  }

  lemma AckedNext(ms: seq<Machine>, ins: seq<Input>, n: nat, s: nat, o: nat, a: nat) returns (a': nat)
    requires Run(ms, ins) && 0 < n <= |ins| && StartedAt(ms, n - 1, s) && (ms[n - 1].phase != Discover ==> o < n - 1)
    requires AckedAt(ms, ins, n - 1, s, o, a)
    ensures ms[n - 1].phase != Discover ==> AckedAt(ms, ins, n, s, o, a')
  {
    a' := if ms[n - 1].phase != Leased && ms[n].phase == Leased then n - 1 else a;
    Moves(ms[n - 1], ins[n - 1]);
    hide Step, Accepted, ConfigOf, Legal, Initial, Answers;
    if ms[n - 1].phase != Discover && ms[n - 1].phase != Leased && ms[n].phase == Leased {
      AcceptedAnswers(ms, ins, s, n - 1);
    }
  }

  lemma ProvenanceBegins(ms: seq<Machine>, ins: seq<Input>, n: nat)
    requires Run(ms, ins) && 0 < n <= |ins| && ms[n - 1].phase == Start && ms[n].phase != Start
    ensures Provenance(ms, ins, n, n - 1, n - 1, n - 1)
  {
    StartedNext(ms, ins, n, n - 1);
    Moves(ms[n - 1], ins[n - 1]);
    hide Step, Admitted, TakesOffer, TakesAck, Answers;
  }

  lemma ProvenanceNext(ms: seq<Machine>, ins: seq<Input>, n: nat, s: nat, o: nat, a: nat) returns (o': nat, a': nat)
    requires Run(ms, ins) && 0 < n <= |ins| && ms[n - 1].phase != Start && ms[n].phase != Start
    requires Provenance(ms, ins, n - 1, s, o, a)
    ensures Provenance(ms, ins, n, s, o', a')
  {
    Moves(ms[n - 1], ins[n - 1]);
    hide Step, Accepted, ConfigOf, Admitted, Initial, TakesOffer, TakesAck, Answers, StartedAt;
    StartedNext(ms, ins, n, s);
    o' := OfferedNext(ms, ins, n, s, o);
    a' := AckedNext(ms, ins, n, s, o, a);
  }

  lemma RunStarts(ms: seq<Machine>, ins: seq<Input>)
    requires Run(ms, ins)
    ensures |ms| == |ins| + 1 && ms[0].phase == Start
  {
  }

  /**
   A lease is held only after a session start, then an accepted OFFER, then an accepted ACK, with
   no return to Start since. Leased and Renew alike, the chip holds that ACK's addresses. OFFER
   and ACK carried ids of packets the client had sent since that session start.
   */
  lemma {:induction false} LeaseProvenance(ms: seq<Machine>, ins: seq<Input>, n: nat)
    returns (s: nat, o: nat, a: nat)
    requires Run(ms, ins) && n <= |ins| && ms[n].phase != Start
    ensures Provenance(ms, ins, n, s, o, a)
    decreases n
  {
    hide *;
    RunStarts(ms, ins);
    if ms[n - 1].phase == Start {
      s, o, a := n - 1, n - 1, n - 1;
      ProvenanceBegins(ms, ins, n);
    } else {
      s, o, a := LeaseProvenance(ms, ins, n - 1);
      o, a := ProvenanceNext(ms, ins, n, s, o, a);
    }
  }

  /** Without a lease the chip has no addresses. */
  lemma NoLeaseNoAddresses(ms: seq<Machine>, ins: seq<Input>, n: nat)
    requires Run(ms, ins) && n <= |ins|
    ensures ms[n].phase == Discover || ms[n].phase == Request ==>
      ms[n].net == NetConfig([0, 0, 0, 0], [0, 0, 0, 0], [0, 0, 0, 0])
    ensures ms[n].phase == Leased ==>
      ms[n].net == NetConfig(ms[n].lease.gateway, ms[n].lease.mask, ms[n].lease.ip)
  {
    Reachable(ms, ins, n);
  }

  // ---- What each update sends ----

  /** The lease fields after listening. */
  function Fields(m: Machine, i: Input): Lease {
    if i.recv then i.reply.lease else m.lease
  }

  /** Unless the socket cannot be opened, a session starts with one DISCOVER (1) and no lease. */
  lemma StartSends(m: Machine, i: Input)
    requires Legal(i) && m.phase == Start
    ensures var m' := Step(m, i);
      && m'.lease == Lease([0, 0, 0, 0], [0, 0, 0, 0], [0, 0, 0, 0], [0, 0, 0, 0], [0, 0, 0, 0], 0)
      && m'.net == NetConfig([0, 0, 0, 0], [0, 0, 0, 0], [0, 0, 0, 0])
      && m'.dest == (if i.link == Opened then [255, 255, 255, 255] else m.dest)
      && if i.link == Down then
           m'.phase == Start && m'.history.log == m.history.log
         else
           && m'.phase == Discover && m'.initialXid == m'.xid == i.random
           && m'.started == i.c0 && m'.lastDiscover == i.c2
           && m'.history.log == m.history.log + [Message(1, i.random, i.c0, i.c1, m'.lease, m'.dest)]
  {
  }

  /**
   An OFFER (2) is answered by one REQUEST (3) to the server it names. Otherwise DISCOVER goes out
   again, under the next id, if and only if more than a second has passed since the last.
   */
  lemma DiscoverSends(m: Machine, i: Input)
    requires Legal(i) && m.phase == Discover
    ensures var m', l, log := Step(m, i), Fields(m, i), m.history.log;
      && m'.lease == l && m'.started == m.started
      && if i.recv && i.reply.kind == 2 then
           && m'.phase == Request && m'.xid == m.xid && m'.dest == l.server
           && m'.lastRequest == i.c1 && m'.firstRequest == i.c2
           && m'.history.log == log + [Message(3, m.xid, m.started, i.c0, l, l.server)]
         else
           && m'.phase == Discover && m'.dest == m.dest
           && if i.c0 - m.lastDiscover > 1000 then
                && m'.xid == (m.xid + 1) % 0x1_0000_0000 && m'.lastDiscover == i.c2
                && m'.history.log == log + [Message(1, m'.xid, m.started, i.c1, l, m.dest)]
              else m'.xid == m.xid && m'.lastDiscover == m.lastDiscover && m'.history.log == log
  {
  }

  /**
   Neither an ACK (5) nor a NAK (6) is answered. Without them REQUEST goes out again if and only if
   more than a second has passed since the last; and past ten seconds the client starts anew.
   */
  lemma RequestSends(m: Machine, i: Input)
    requires Legal(i) && (m.phase == Request || m.phase == Renew)
    ensures var m', l, log := Step(m, i), Fields(m, i), m.history.log;
      && m'.dest == m.dest && m'.xid == m.xid && m'.started == m.started
      && if i.recv && i.reply.kind == 5 then
           && m'.phase == Leased && m'.history.log == log
           && m'.lease == l.(duration := if l.duration == 0 then 86400 else l.duration)
           && m'.net == NetConfig(l.gateway, l.mask, l.ip)
           && m'.t1 == (if m.t1 == 0 then m'.lease.duration / 2 else m.t1)
           && m'.t2 == (if m.t2 == 0 then m'.lease.duration * 7 / 8 else m.t2)
           && m'.renewAt == i.c0 + m'.t1 * 1000 % 0x1_0000_0000
           && m'.rebindAt == i.c1 + m'.t2 * 1000 % 0x1_0000_0000
         else if i.recv && i.reply.kind == 6 then m'.phase == Start && m'.history.log == log && m'.lease == l
         else
           && m'.lease == l && m'.phase == (if i.c3 - m.firstRequest > 10000 then Start else m.phase)
           && m'.history.log == log
              + (if i.c0 - m.lastRequest > 1000 then [Message(3, m.xid, m.started, i.c1, l, m.dest)] else [])
           && m'.lastRequest == (if i.c0 - m.lastRequest > 1000 then i.c2 else m.lastRequest)
           && m'.firstRequest == m.firstRequest
  {
  }

  // ---- Waiting ----

  /** No two consecutive packets of one kind are sent within a second of each other. */
  lemma PacketsSpaced(ms: seq<Machine>, ins: seq<Input>, n: nat)
    requires Run(ms, ins) && n <= |ins|
    ensures Spaced(ms[n].history.log)
  {
    Reachable(ms, ins, n);
  }

  /**
   At most ten repeats of a request, counting the one sent while giving up; this is with the two
   clock readings behind the first request alike, and in general a repeat more per second between.
   */
  lemma TenRetries(ms: seq<Machine>, ins: seq<Input>, n: nat)
    requires Run(ms, ins) && n <= |ins|
    ensures 1001 * ms[n].history.retries <= REQUEST_TIMEOUT + ms[n].history.gap + 1001
    ensures ms[n].history.gap == 0 ==> ms[n].history.retries <= 10
    ensures ms[n].history.gap == 0 && (ms[n].phase == Request || ms[n].phase == Renew) ==> ms[n].history.retries <= 9
  {
    Reachable(ms, ins, n);
    hide Spaced, SessionIds, Wrap32;
  }

  /** A stay in Request, update after update, never outlasts the timeout. */
  lemma {:induction false} RequestEndsInTime(ms: seq<Machine>, ins: seq<Input>, j: nat, n: nat)
    requires Run(ms, ins) && j < n <= |ins|
    requires forall k | j <= k <= n :: ms[k].phase == Request
    ensures ms[n].firstRequest == ms[j].firstRequest
    ensures TimeAt(ins, n) <= ms[j].firstRequest + REQUEST_TIMEOUT
    decreases n
  {
    assert ms[n] == Step(ms[n - 1], ins[n - 1]);
    if j < n - 1 {
      RequestEndsInTime(ms, ins, j, n - 1);
    }
  }

  /**
   The request timer is not restarted on entering Renew. An update that neither accepts an ACK
   nor a NAK leaves Renew exactly when its clock is past the timeout of the original request.
   */
  lemma RenewKeepsOldTimeout(m: Machine, i: Input)
    requires Legal(i) && m.phase == Renew && !(i.recv && (i.reply.kind == ACK || i.reply.kind == NAK))
    ensures Step(m, i).phase == Renew <==> i.c3 <= m.firstRequest + REQUEST_TIMEOUT
    ensures Step(m, i).phase != Renew ==> Step(m, i).phase == Start
  {
  }

  /**
   Hence with a renewal product of ten seconds or more renewal lasts a single update: unless that
   update accepts an ACK, the lease is given up.
   */
  lemma RenewLastsOneUpdate(ms: seq<Machine>, ins: seq<Input>, n: nat)
    requires Run(ms, ins) && n < |ins| && ms[n].phase == Renew
    requires Wrap32(ms[n].t1 * 1000) >= REQUEST_TIMEOUT
    ensures ms[n + 1].phase == if ins[n].recv && ins[n].reply.kind == ACK then Leased else Start
  {
    Reachable(ms, ins, n);
    assert TimeAt(ins, n) <= ins[n].c0;
    hide Step, Spaced, SessionIds, Retries, Addresses, Timers, Destination, LastPacket, Wrap32;
    Moves(ms[n], ins[n]);
    if !(ins[n].recv && (ins[n].reply.kind == ACK || ins[n].reply.kind == NAK)) {
      RenewKeepsOldTimeout(ms[n], ins[n]);
    } else if ins[n].reply.kind == NAK {
      NakRestarts(ms[n], ins[n]);
    }
  }

  lemma NakRestarts(m: Machine, i: Input)
    requires Legal(i) && (m.phase == Request || m.phase == Renew) && i.recv && i.reply.kind == NAK
    ensures Step(m, i).phase == Start
  {
  }

  // ---- Deadlines ----

  /** The rebinding product fits 32 bits exactly for leases of at most 4908534 seconds. */
  lemma ProductFits(duration: u32)
    ensures SevenEighths(duration) * 1000 < U32 <==> duration <= 4908534
  {
  }

  /** The acknowledgement of step `a` set the timers of state `n`, which were unset before. */
  ghost predicate SetTimers(ms: seq<Machine>, ins: seq<Input>, a: nat, n: nat)
    requires |ms| == |ins| + 1 && n < |ms|
  {
    && a < n && TakesAck(ms, ins, a) && ms[a].t1 == ms[a].t2 == 0
    && ms[n].t1 == ms[a + 1].lease.duration / 2 && ms[n].t2 == 7 * ms[a + 1].lease.duration / 8
  }

  /** What an update does to the timers. */
  lemma TimersMove(m: Machine, i: Input)
    requires Legal(i) && Timers(m)
    ensures var m' := Step(m, i);
      if (m.phase == Request || m.phase == Renew) && i.recv && i.reply.kind == ACK && m.t2 == 0 then
        m'.t1 == HalfLease(m'.lease.duration) && m'.t2 == SevenEighths(m'.lease.duration)
      else m'.t1 == m.t1 && m'.t2 == m.t2
  {
    hide HalfLease, SevenEighths, Wrap32;
  }

  /** Timers in use, and timers that are set at all, come from one acknowledged lease. */
  lemma {:induction false} TimersSetBy(ms: seq<Machine>, ins: seq<Input>, n: nat) returns (a: nat)
    requires Run(ms, ins) && n <= |ins|
    requires ms[n].phase == Leased || ms[n].phase == Renew || ms[n].t2 != 0
    ensures SetTimers(ms, ins, a, n)
    decreases n
  {
    Reachable(ms, ins, n - 1);
    assert ms[n] == Step(ms[n - 1], ins[n - 1]);
    Moves(ms[n - 1], ins[n - 1]);
    TimersMove(ms[n - 1], ins[n - 1]);
    hide Step, Accepted, ConfigOf, HalfLease, SevenEighths, Spaced, SessionIds, Retries, Deadlines;
    if ms[n - 1].t2 == 0 && TakesAck(ms, ins, n - 1) {
      a := n - 1;
    } else {
      a := TimersSetBy(ms, ins, n - 1);
    }
  }

  /**
   Renewal is due no later than rebinding whenever the lease that set the timers is of at most
   4908534 seconds; an update that stays in Leased then saw a clock no later than both.
   */
  lemma RenewBeforeRebind(ms: seq<Machine>, ins: seq<Input>, n: nat) returns (a: nat)
    requires Run(ms, ins) && n <= |ins| && ms[n].phase == Leased
    ensures SetTimers(ms, ins, a, n) && ms[n].t1 <= ms[n].t2
    ensures ms[a + 1].lease.duration <= 4908534 ==> ms[n].renewAt <= ms[n].rebindAt
    ensures ms[a + 1].lease.duration <= 4908534 && n < |ins| && ms[n + 1].phase == Leased ==>
      ins[n].c0 <= ms[n].renewAt <= ms[n].rebindAt
  {
    a := TimersSetBy(ms, ins, n);
    ProductFits(ms[a + 1].lease.duration);
    Reachable(ms, ins, n);
    if n < |ins| {
      assert ms[n + 1] == Step(ms[n], ins[n]);
    }
    hide Spaced, SessionIds, Wrap32, HalfLease, SevenEighths;
  }

  /** An acknowledgement accepted while the timers are unset. */
  ghost predicate FreshAck(m: Machine, i: Input) {
    && Legal(i) && (m.phase == Request || m.phase == Renew) && m.t1 == m.t2 == 0
    && i.recv && i.reply.kind == ACK
  }

  /**
   The bound is sharp: with both deadlines counted from one reading, and up to leases whose
   renewal product wraps as well, longer ones are due for rebinding before renewal.
   */
  lemma LongLeaseOutOfOrder(m: Machine, i: Input)
    requires FreshAck(m, i) && i.c0 == i.c1 && Accepted(i.reply.lease).duration <= 8589935
    ensures Step(m, i).renewAt <= Step(m, i).rebindAt <==> Accepted(i.reply.lease).duration <= 4908534
  {
    var d := Accepted(i.reply.lease).duration;
    LongProducts(d);
    hide Wrap32, HalfLease, SevenEighths;
  }

  lemma LongProducts(d: u32)
    requires d <= 8589935
    ensures Wrap32(HalfLease(d) * 1000) <= Wrap32(SevenEighths(d) * 1000) <==> d <= 4908534
  {
    var t1, t2 := HalfLease(d), SevenEighths(d);
    assert t1 * 1000 < U32;
    if d > 4908534 {
      assert U32 <= t2 * 1000 < 2 * U32;
      assert Wrap32(t2 * 1000) == t2 * 1000 - U32;
    }
  }

  /** One second more than the bound, and the lease is dropped 0.7 s after it was taken. */
  lemma LongLeaseDropped(m: Machine, ack: Input, next: Input)
    requires FreshAck(m, ack) && ack.reply.lease.duration == 4908535
    requires Legal(next) && ack.c1 + 704 < next.c0
    ensures var m' := Step(m, ack);
      && m'.phase == Leased && m'.renewAt == ack.c0 + 2454267000 && m'.rebindAt == ack.c1 + 704
      && Step(m', next).phase == Start
  {
    assert HalfLease(4908535) == 2454267 && SevenEighths(4908535) == 4294968;
    assert Wrap32(2454267 * 1000) == 2454267000 && Wrap32(4294968 * 1000) == 704;
    TimersMove(m, ack);
    AckMoves(m, ack);
    Moves(m, ack);
    assert Step(m, ack).lease.duration == 4908535;
    HeldMoves(Step(m, ack), next);
    hide Step, Wrap32, HalfLease, SevenEighths;
  }

  lemma OrderedTimers(ms: seq<Machine>, ins: seq<Input>, n: nat)
    requires Run(ms, ins) && n <= |ins|
    ensures Timers(ms[n])
  {
    Reachable(ms, ins, n);
  }

  /** Timers once set stay as they are, whatever leases follow. */
  lemma {:induction false} TimersNeverChange(ms: seq<Machine>, ins: seq<Input>, j: nat, n: nat)
    requires Run(ms, ins) && j <= n <= |ins| && ms[j].t1 != 0
    ensures ms[n].t1 == ms[j].t1 && ms[n].t2 == ms[j].t2
    decreases n
  {
    hide Step, Admitted, Initial, Legal;
    if j < n {
      TimersNeverChange(ms, ins, j, n - 1);
      OrderedTimers(ms, ins, n - 1);
      TimersMove(ms[n - 1], ins[n - 1]);
    }
  }

  /** When the lease taken in step `a` runs out, counted from when the client accepted it. */
  function Expiry(ms: seq<Machine>, ins: seq<Input>, a: nat): nat
    requires a < |ins| && a + 1 < |ms|
  {
    ins[a].c0 + 1000 * ms[a + 1].lease.duration
  }

  /** The lease taken in step `a` has been held, and not taken anew, up to state `n`. */
  ghost predicate HeldSince(ms: seq<Machine>, ins: seq<Input>, a: nat, n: nat)
    requires |ms| == |ins| + 1 && n < |ms|
  {
    && a < n && TakesAck(ms, ins, a)
    && (forall k | a < k <= n :: ms[k].phase == Leased || ms[k].phase == Renew)
    && (forall k | a < k < n :: !TakesAck(ms, ins, k))
  }

  lemma AckMoves(m: Machine, i: Input)
    requires Legal(i) && (m.phase == Request || m.phase == Renew) && i.recv && i.reply.kind == ACK
    ensures var m' := Step(m, i);
      m'.renewAt == i.c0 + Wrap32(m'.t1 * 1000) && m'.rebindAt == i.c1 + Wrap32(m'.t2 * 1000)
  {
    hide Wrap32, HalfLease, SevenEighths;
  }

  lemma HeldMoves(m: Machine, i: Input)
    requires Legal(i) && (m.phase == Leased || m.phase == Renew)
    requires !(m.phase == Renew && i.recv && i.reply.kind == ACK)
    ensures var m' := Step(m, i);
      && m'.renewAt == m.renewAt && m'.rebindAt == m.rebindAt && m'.t1 == m.t1 && m'.t2 == m.t2
      && (m.phase == Leased ==>
            m'.phase == if i.c0 > m.rebindAt then Start else if i.c0 > m.renewAt then Renew else Leased)
  {
    hide Wrap32, HalfLease, SevenEighths;
  }

  /** The deadlines of a lease stay as they were set. */
  lemma {:induction false} DeadlinesHeld(ms: seq<Machine>, ins: seq<Input>, a: nat, n: nat)
    requires Run(ms, ins) && n <= |ins| && HeldSince(ms, ins, a, n)
    ensures ms[n].renewAt == ins[a].c0 + Wrap32(ms[n].t1 * 1000)
    ensures ms[n].rebindAt == ins[a].c1 + Wrap32(ms[n].t2 * 1000)
    ensures ms[n].t1 == ms[a + 1].t1 && ms[n].t2 == ms[a + 1].t2
    decreases n
  {
    hide Step, Wrap32, Admitted, Initial, Accepted, ConfigOf;
    if n == a + 1 {
      AckMoves(ms[a], ins[a]);
    } else {
      DeadlinesHeld(ms, ins, a, n - 1);
      assert !TakesAck(ms, ins, n - 1);
      Moves(ms[n - 1], ins[n - 1]);
      HeldMoves(ms[n - 1], ins[n - 1]);
    }
  }

  /** Some update from now on reads a clock past `expiry` and leaves the client in Leased. */
  ghost predicate OutlivesExpiry(m: Machine, now: nat, expiry: nat) {
    exists i: Input :: Legal(i) && now <= i.c0 && expiry < i.c0 && Step(m, i).phase == Leased
  }

  lemma OutlivesIff(m: Machine, now: nat, expiry: nat)
    requires m.phase == Leased
    ensures OutlivesExpiry(m, now, expiry)
       <==> expiry < m.renewAt && expiry < m.rebindAt && now <= m.renewAt && now <= m.rebindAt
  {
    if expiry < m.renewAt && expiry < m.rebindAt && now <= m.renewAt && now <= m.rebindAt {
      var t := if now <= expiry then expiry + 1 else now;
      var i := Input(Ready, 0, false, NOTHING, t, t, t, t);
      assert Legal(i) && Step(m, i).phase == Leased;
    }
    if OutlivesExpiry(m, now, expiry) {
      var i: Input :| Legal(i) && now <= i.c0 && expiry < i.c0 && Step(m, i).phase == Leased;
    }
  }

  lemma UnwrappedDeadlines(c0: nat, c1: nat, t1: u32, t2: u32, duration: nat, now: nat)
    requires c0 <= c1 && t1 <= t2 && t2 * 1000 < U32
    ensures var expiry, renewAt, rebindAt := c0 + 1000 * duration, c0 + Wrap32(t1 * 1000), c1 + Wrap32(t2 * 1000);
      expiry < renewAt && expiry < rebindAt && now <= renewAt && now <= rebindAt <==> t1 > duration && now <= renewAt
  {
  }

  /**
   A client still in Leased can stay there past the expiry of its lease if and only if both
   deadlines lie behind the expiry. As long as the products fit, that is to say that the renewal
   timer exceeds the duration of the lease, and then it is left over from an earlier one.
   */
  lemma LeaseOutlived(ms: seq<Machine>, ins: seq<Input>, a: nat, n: nat)
    requires Run(ms, ins) && n <= |ins| && HeldSince(ms, ins, a, n) && ms[n].phase == Leased
    ensures var m, now, expiry := ms[n], TimeAt(ins, n), Expiry(ms, ins, a);
      && (OutlivesExpiry(m, now, expiry) <==>
            expiry < m.renewAt && expiry < m.rebindAt && now <= m.renewAt && now <= m.rebindAt)
      && (m.t2 * 1000 < U32 ==>
            (OutlivesExpiry(m, now, expiry) <==> m.t1 > ms[a + 1].lease.duration && now <= m.renewAt))
      && (n < |ins| && expiry < ins[n].c0 && ms[n + 1].phase == Leased ==> OutlivesExpiry(m, now, expiry))
    ensures ms[n].t1 > ms[a + 1].lease.duration ==> ms[a].t1 == ms[n].t1
  {
    hide Step, Wrap32, Inv;
    DeadlinesHeld(ms, ins, a, n);
    OutlivesIff(ms[n], TimeAt(ins, n), Expiry(ms, ins, a));
    OrderedTimers(ms, ins, n);
    if ms[n].t2 * 1000 < U32 {
      UnwrappedDeadlines(ins[a].c0, ins[a].c1, ms[n].t1, ms[n].t2, ms[a + 1].lease.duration, TimeAt(ins, n));
    }
    OrderedTimers(ms, ins, a);
    TimersMove(ms[a], ins[a]);
  }

  /** After two updates past expiry that take no new lease, the one taken in step `a` is gone. */
  ghost predicate GivenUp(ms: seq<Machine>, ins: seq<Input>, a: nat, n: nat)
    requires |ms| == |ins| + 1 && n + 1 < |ins| && a < |ins|
  {
    Expiry(ms, ins, a) < ins[n].c0 && !TakesAck(ms, ins, n) && !TakesAck(ms, ins, n + 1) ==>
      ms[n + 2].phase != Leased && ms[n + 2].phase != Renew
  }

  /** Past the expiry of a lease of ten seconds or more, an update in Renew that takes no ACK gives it up. */
  lemma LateRenewFails(ms: seq<Machine>, ins: seq<Input>, a: nat, n: nat)
    requires Run(ms, ins) && n < |ins| && HeldSince(ms, ins, a, n) && ms[n].phase == Renew
    requires ms[a + 1].lease.duration >= 10 && Expiry(ms, ins, a) < ins[n].c0 && !TakesAck(ms, ins, n)
    ensures ms[n + 1].phase == Start
  {
    Reachable(ms, ins, a);
    assert ms[n + 1] == Step(ms[n], ins[n]) && TimeAt(ins, a) <= ins[a].c0;
    FirstRequestHeld(ms, ins, a, n);
    Moves(ms[n], ins[n]);
    hide Step, Spaced, SessionIds, Retries, Addresses, Timers, Destination, LastPacket, Wrap32;
    if !(ins[n].recv && (ins[n].reply.kind == ACK || ins[n].reply.kind == NAK)) {
      RenewKeepsOldTimeout(ms[n], ins[n]);
    } else if ins[n].reply.kind == NAK {
      NakRestarts(ms[n], ins[n]);
    }
  }

  lemma FirstRequestMoves(m: Machine, i: Input)
    requires Legal(i) && m.phase != Discover
    ensures Step(m, i).firstRequest == m.firstRequest
  {
    hide Wrap32, HalfLease, SevenEighths, Accepted, ConfigOf;
  }

  lemma {:induction false} FirstRequestHeld(ms: seq<Machine>, ins: seq<Input>, a: nat, n: nat)
    requires Run(ms, ins) && n <= |ins| && HeldSince(ms, ins, a, n)
    ensures ms[n].firstRequest == ms[a].firstRequest
    decreases n
  {
    FirstRequestMoves(ms[n - 1], ins[n - 1]);
    hide Step;
    if n > a + 1 {
      FirstRequestHeld(ms, ins, a, n - 1);
    }
  }

  /**
   If the renewal timer does not exceed the duration, and that is ten seconds or more, at most
   one update past expiry still holds the lease.
   */
  lemma HeldOnceMore(ms: seq<Machine>, ins: seq<Input>, a: nat, n: nat)
    requires Run(ms, ins) && n + 1 < |ins| && HeldSince(ms, ins, a, n)
    requires Wrap32(ms[n].t1 * 1000) <= 1000 * ms[a + 1].lease.duration && ms[a + 1].lease.duration >= 10
    ensures GivenUp(ms, ins, a, n)
    ensures Expiry(ms, ins, a) < ins[n].c0 && !TakesAck(ms, ins, n) ==>
      ms[n + 1].phase == Renew || ms[n + 1].phase == Start
  {
    DeadlinesHeld(ms, ins, a, n);
    assert ms[n + 1] == Step(ms[n], ins[n]) && ms[n + 2] == Step(ms[n + 1], ins[n + 1]);
    Moves(ms[n], ins[n]);
    Moves(ms[n + 1], ins[n + 1]);
    hide Step, Wrap32;
    if Expiry(ms, ins, a) < ins[n].c0 && !TakesAck(ms, ins, n) {
      if ms[n].phase == Leased {
        HeldMoves(ms[n], ins[n]);
        if ms[n + 1].phase == Renew && !TakesAck(ms, ins, n + 1) {
          LateRenewFails(ms, ins, a, n + 1);
        }
      } else {
        LateRenewFails(ms, ins, a, n);
      }
    }
  }

  /** From Start to Leased in three updates. */
  lemma LeaseTaken(m: Machine, start: Input, offer: Input, ack: Input)
    requires m.phase == Start && Legal(start) && Legal(offer) && Legal(ack) && start.link != Down
    requires offer.recv && offer.reply.kind == OFFER && ack.recv && ack.reply.kind == ACK
    ensures var m1 := Step(m, start); var m2 := Step(m1, offer); var m3 := Step(m2, ack);
      && m1.phase == Discover && m2.phase == Request && m3.phase == Leased && m3.lease == Accepted(ack.reply.lease)
      && m1.initialXid == m1.xid == m2.initialXid == m2.xid == start.random
      && m3.t1 == (if m.t1 == 0 then HalfLease(m3.lease.duration) else m.t1)
      && m3.t2 == (if m.t2 == 0 then SevenEighths(m3.lease.duration) else m.t2)
      && m3.renewAt == ack.c0 + Wrap32(m3.t1 * 1000) && m3.rebindAt == ack.c1 + Wrap32(m3.t2 * 1000)
  {
    hide Wrap32, HalfLease, SevenEighths;
  }

  function Quiet(t: nat): Input {
    Input(Ready, 0, false, NOTHING, t, t, t, t)
  }

  function Hears(t: nat, kind: byte, duration: u32): Input {
    Input(Ready, 0, true, Reply(kind, NO_LEASE.(duration := duration), 0), t, t, t, t)
  }

  const BOOT := Machine(Start, 0, 0, NO_LEASE, 0, 0, 0, 0, 0, 0, 0, 0, UNCONFIGURED, BROADCAST,
                        History([], 0, 0, 0, 0, false, []))

  /** The inputs of the run below: a lease of a day, given up when it is due, and one of a minute. */
  const LATE: nat := 75600001
  const OUTLIVING: seq<Input> :=
    [Quiet(0), Hears(0, OFFER, 0), Hears(0, ACK, 0), Quiet(LATE),
     Quiet(LATE), Hears(LATE, OFFER, 0), Hears(LATE, ACK, 60), Quiet(LATE + 43200000)]

  /** The states a sequence of inputs leads to from `m`. */
  function Play(m: Machine, ins: seq<Input>): (ms: seq<Machine>)
    requires forall i | i in ins :: Legal(i)
    ensures |ms| == |ins| + 1 && ms[0] == m
    ensures forall k | 0 <= k < |ins| :: ms[k + 1] == Step(ms[k], ins[k])
    decreases |ins|
  {
    if ins == [] then [m] else [m] + Play(Step(m, ins[0]), ins[1..])
  }

  lemma FirstHalf(ms: seq<Machine>)
    requires |ms| == 9 && ms[0] == BOOT
    requires forall k | 0 <= k < 8 :: ms[k + 1] == Step(ms[k], OUTLIVING[k])
    ensures ms[4].phase == Start && ms[4].t1 == 43200 && ms[4].t2 == 75600
    ensures forall k | 0 <= k < 4 :: Admitted(ms[k], OUTLIVING[k])
  {
    hide Step;
    assert HalfLease(86400) == 43200 && SevenEighths(86400) == 75600;
    assert Wrap32(43200 * 1000) == 43200000 && Wrap32(75600 * 1000) == 75600000;
    LeaseTaken(ms[0], OUTLIVING[0], OUTLIVING[1], OUTLIVING[2]);
    assert ms[3] == Step(Step(Step(ms[0], OUTLIVING[0]), OUTLIVING[1]), OUTLIVING[2]);
    HeldMoves(ms[3], OUTLIVING[3]);
    hide Wrap32, HalfLease, SevenEighths;
  }

  lemma SecondHalf(ms: seq<Machine>)
    requires |ms| == 9 && ms[4].phase == Start && ms[4].t1 == 43200 && ms[4].t2 == 75600
    requires forall k | 0 <= k < 8 :: ms[k + 1] == Step(ms[k], OUTLIVING[k])
    ensures ms[6].phase == Request && ms[7].phase == ms[8].phase == Leased && ms[7].lease.duration == 60
    ensures ms[7].lease == Accepted(OUTLIVING[6].reply.lease)
    ensures forall k | 4 <= k < 8 :: Admitted(ms[k], OUTLIVING[k])
  {
    hide Step;
    assert Wrap32(43200 * 1000) == 43200000 && Wrap32(75600 * 1000) == 75600000;
    LeaseTaken(ms[4], OUTLIVING[4], OUTLIVING[5], OUTLIVING[6]);
    assert ms[7] == Step(Step(Step(ms[4], OUTLIVING[4]), OUTLIVING[5]), OUTLIVING[6]);
    HeldMoves(ms[7], OUTLIVING[7]);
    hide Wrap32, HalfLease, SevenEighths;
  }

  /**
   Such runs exist: a lease of a day, given up at its rebinding deadline, then one of a minute,
   which is still held, in Leased, after an update eleven hours later.
   */
  lemma LeaseOutlivedRun() returns (ms: seq<Machine>, ins: seq<Input>)
    ensures Run(ms, ins) && |ins| == 8
    ensures HeldSince(ms, ins, 6, 8) && ms[7].lease.duration == 60 && ms[8].phase == Leased
    ensures Expiry(ms, ins, 6) + 11 * 3600 * 1000 < ins[7].c0
  {
    ins := OUTLIVING;
    ms := Play(BOOT, ins);
    FirstHalf(ms);
    SecondHalf(ms);
    hide Step, Accepted, Play;
  }

  // ---- Short leases, and short timers ----

  /** The product behind the renewal deadline of a first lease of `d` seconds. */
  function RenewalProduct(d: u32): u32 {
    Wrap32(HalfLease(d) * 1000)
  }

  /** A first lease of `d` seconds from time 0, then two quiet updates at `x` and `y`. */
  function Renewing(d: u32, x: nat, y: nat): (ins: seq<Input>)
    ensures |ins| == 6
  {
    var t := RenewalProduct(d) + 1;
    [Quiet(0), Hears(0, OFFER, 0), Input(Ready, 0, true, Reply(ACK, NO_LEASE.(duration := d), 0), 0, t, t, t),
     Quiet(t), Quiet(x), Quiet(y)]
  }

  lemma QuietInRenew(m: Machine, t: nat)
    requires m.phase == Renew
    ensures var m' := Step(m, Quiet(t));
      && m'.phase == (if t > m.firstRequest + REQUEST_TIMEOUT then Start else Renew)
      && m'.firstRequest == m.firstRequest && m'.t1 == m.t1
  {
  }

  lemma RenewingStarts(d: u32, x: nat, y: nat, ms: seq<Machine>)
    requires d > 0 && |ms| == 7 && ms[0] == BOOT
    requires forall k | 0 <= k < 6 :: Legal(Renewing(d, x, y)[k]) && ms[k + 1] == Step(ms[k], Renewing(d, x, y)[k])
    ensures ms[2].phase == Request && ms[3].phase == Leased && ms[4].phase == Renew
    ensures ms[3].lease == Renewing(d, x, y)[2].reply.lease && ms[4].t1 == HalfLease(d) && ms[4].firstRequest == 0
    ensures forall k | 0 <= k < 4 :: Admitted(ms[k], Renewing(d, x, y)[k])
  {
    hide Step, Wrap32, HalfLease, SevenEighths;
    var ins := Renewing(d, x, y);
    LeaseTaken(ms[0], ins[0], ins[1], ins[2]);
    FirstRequestTaken(ms[0], ins[0], ins[1], ins[2]);
    assert ms[3] == Step(Step(Step(ms[0], ins[0]), ins[1]), ins[2]);
    HeldMoves(ms[3], ins[3]);
    FirstRequestMoves(ms[3], ins[3]);
  }

  lemma FirstRequestTaken(m: Machine, start: Input, offer: Input, ack: Input)
    requires m.phase == Start && Legal(start) && Legal(offer) && Legal(ack) && start.link != Down
    requires offer.recv && offer.reply.kind == OFFER && ack.recv && ack.reply.kind == ACK
    ensures Step(Step(Step(m, start), offer), ack).firstRequest == offer.c2
  {
    hide Wrap32, HalfLease, SevenEighths;
  }

  /** A run in which a client is still in Renew after updates at `x` and `y`. */
  lemma RenewingRun(d: u32, x: nat, y: nat) returns (ms: seq<Machine>, ins: seq<Input>)
    requires d > 0 && RenewalProduct(d) < x <= y <= REQUEST_TIMEOUT
    ensures Run(ms, ins) && |ins| == 6 && ins[4] == Quiet(x) && ins[5] == Quiet(y)
    ensures HeldSince(ms, ins, 2, 4) && ms[3].lease.duration == d && ins[2].c0 == 0
    ensures ms[4].phase == ms[5].phase == ms[6].phase == Renew && ms[4].t1 == HalfLease(d)
  {
    hide Step, Play, HalfLease, SevenEighths, Wrap32, RenewalProduct;
    ins := Renewing(d, x, y);
    ms := Play(BOOT, ins);
    RenewingStarts(d, x, y, ms);
    QuietInRenew(ms[4], x);
    QuietInRenew(ms[5], y);
  }

  /** Whatever T1 the lease finds, if it does not exceed `d` seconds, two late updates end a lease of `d`. */
  ghost predicate AlwaysGivenUp(d: u32) {
    forall ms: seq<Machine>, ins: seq<Input>, a: nat, n: nat ::
      (Run(ms, ins) && n + 1 < |ins| && HeldSince(ms, ins, a, n)
       && ms[a + 1].lease.duration == d && Wrap32(ms[n].t1 * 1000) <= 1000 * d)
      ==> GivenUp(ms, ins, a, n)
  }

  /** That is so exactly for leases of ten seconds and more. */
  lemma GivenUpIffTen(d: u32)
    requires d > 0
    ensures AlwaysGivenUp(d) <==> d >= 10
  {
    hide Step, Wrap32;
    if d >= 10 {
      forall ms: seq<Machine>, ins: seq<Input>, a: nat, n: nat |
        Run(ms, ins) && n + 1 < |ins| && HeldSince(ms, ins, a, n)
        && ms[a + 1].lease.duration == d && Wrap32(ms[n].t1 * 1000) <= 1000 * d
        ensures GivenUp(ms, ins, a, n)
      {
        HeldOnceMore(ms, ins, a, n);
      }
    } else {
      ShortProduct(d);
      var ms, ins := RenewingRun(d, 1000 * d + 1, 1000 * d + 2);
      assert !GivenUp(ms, ins, 2, 4);
    }
  }

  lemma ShortProduct(d: u32)
    requires d < 10
    ensures RenewalProduct(d) <= 1000 * d
  {
  }

  /** With this T1, every update in Renew that takes no ACK gives the lease up. */
  ghost predicate RenewsOnce(t1: u32) {
    forall ms: seq<Machine>, ins: seq<Input>, n: nat ::
      (Run(ms, ins) && n < |ins| && ms[n].phase == Renew && ms[n].t1 == t1 && !TakesAck(ms, ins, n))
      ==> ms[n + 1].phase == Start
  }

  /** That is so exactly if the product is ten seconds or more; every T1 a client can have is half a lease. */
  lemma RenewsOnceIffTen(d: u32)
    requires d > 0
    ensures RenewsOnce(HalfLease(d)) <==> RenewalProduct(d) >= REQUEST_TIMEOUT
  {
    hide Step, Wrap32, HalfLease;
    if RenewalProduct(d) >= REQUEST_TIMEOUT {
      forall ms: seq<Machine>, ins: seq<Input>, n: nat |
        Run(ms, ins) && n < |ins| && ms[n].phase == Renew && ms[n].t1 == HalfLease(d) && !TakesAck(ms, ins, n)
        ensures ms[n + 1].phase == Start
      {
        Moves(ms[n], ins[n]);
        RenewLastsOneUpdate(ms, ins, n);
      }
    } else {
      var t := RenewalProduct(d) + 1;
      var ms, ins := RenewingRun(d, t, t);
      assert ms[4].phase == Renew && !TakesAck(ms, ins, 4) && ms[5].phase == Renew;
    }
  }

  // ---- Where DISCOVER goes ----

  /**
   The destination is set to broadcast only when the socket is opened, so the DISCOVER of a
   new session is broadcast exactly when no offer has been taken since, or the last one named
   the broadcast address itself (RFC 2131, section 4.1, has every DISCOVER broadcast).
   */
  lemma DiscoverDestination(ms: seq<Machine>, ins: seq<Input>, n: nat)
    requires Run(ms, ins) && n < |ins| && ms[n].phase == Start && ms[n + 1].phase == Discover
    requires ms[n + 1].history.isOpen
    ensures var offers, log := ms[n + 1].history.offers, ms[n + 1].history.log;
      && log != [] && log[|log| - 1].kind == DISCOVER
      && (log[|log| - 1].dest == BROADCAST <==> offers == [] || offers[|offers| - 1] == BROADCAST)
  {
    Reachable(ms, ins, n);
    assert ms[n + 1] == Step(ms[n], ins[n]);
    hide Spaced, SessionIds, Wrap32, HalfLease, SevenEighths;
  }

  /** A refused request is followed by a DISCOVER to the server that refused it, and to no other. */
  lemma RestartAfterNak(ms: seq<Machine>, ins: seq<Input>, n: nat)
    requires Run(ms, ins) && n + 1 < |ins| && ms[n].phase == Request && ms[n].history.isOpen
    requires ins[n].recv && ins[n].reply.kind == NAK && ins[n + 1].link == Ready
    ensures var offers, log := ms[n].history.offers, ms[n + 2].history.log;
      && ms[n + 2].phase == Discover && offers != []
      && log != [] && log[|log| - 1].kind == DISCOVER && log[|log| - 1].dest == offers[|offers| - 1]
  {
    Reachable(ms, ins, n);
    assert ms[n + 1] == Step(ms[n], ins[n]) && ms[n + 2] == Step(ms[n + 1], ins[n + 1]);
    hide Spaced, SessionIds, Wrap32, HalfLease, SevenEighths;
  }
}

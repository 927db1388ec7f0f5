/** Transaction ids: which replies the client accepts, and what becomes of that when the id wraps. */
module DhcpIds {
  import opened Words
  import opened DhcpOptions
  import opened DhcpFsm
  import opened DhcpRuns
  import opened H = DhcpHeader
  import P = DhcpPacket

  /** The header of a BOOTREPLY for this hardware address. */
  predicate Addressed(p: seq<byte>, mac: P.Mac)
    requires |p| >= HEADER_SIZE
  {
    p[0] == 2 && p[28..34] == mac
  }

  /** The reply answers a packet sent in the session of state `m`. */
  ghost predicate Own(m: Machine, p: seq<byte>)
    requires |p| >= HEADER_SIZE
  {
    SentId(m.history.log, m.history.session, Be32(p[4..8]))
  }

  /** The tests `parse_dhcp_response` makes on a reply in state `m`. */
  predicate Passes(m: Machine, p: seq<byte>, mac: P.Mac)
    requires |p| >= HEADER_SIZE
  {
    P.ForUs(p, mac, m.initialXid, m.xid)
  }

  /** Of the replies addressed to it, the client would accept just those that answer it. */
  ghost predicate AcceptsOwn(m: Machine, mac: P.Mac) {
    forall p: seq<byte> | |p| >= HEADER_SIZE && Addressed(p, mac) :: Passes(m, p, mac) <==> Own(m, p)
  }

  /** The ids of the session have not wrapped, or have come to be all there are. */
  predicate Unbroken(m: Machine) {
    m.initialXid + m.history.bumps < U32 || (m.initialXid == 0 && m.xid == U32 - 1)
  }

  lemma SentWithin(m: Machine, d: nat)
    requires SessionIds(m) && m.history.log != [] && d <= m.history.bumps
    ensures SentId(m.history.log, m.history.session, IdAt(m.initialXid, d))
  {
    hide SentId, IdAt;
  }

  lemma UnwrappedSent(m: Machine, id: u32)
    requires SessionIds(m) && m.initialXid + m.history.bumps < U32
    requires SentId(m.history.log, m.history.session, id)
    ensures InRange(m, id)
  {
    var h := m.history;
    var j :| h.session <= j < |h.log| && h.log[j].xid == id;
    assert IsId(h.log[j].xid, m.initialXid, h.bumps);
    var d: nat :| d <= h.bumps && id == IdAt(m.initialXid, d);
  }

  /** Unless the ids are unbroken, one that was sent is out of range. */
  lemma BrokenSent(m: Machine) returns (id: u32)
    requires SessionIds(m) && m.history.log != [] && !Unbroken(m)
    ensures SentId(m.history.log, m.history.session, id) && !InRange(m, id)
  {
    if m.initialXid > 0 {
      id := 0;
      assert IdAt(m.initialXid, U32 - m.initialXid) == 0;
      SentWithin(m, U32 - m.initialXid);
    } else {
      id := U32 - 1;
      assert IdAt(0, U32 - 1) == U32 - 1;
      SentWithin(m, U32 - 1);
    }
  }

  /** A header of a reply with this id. */
  function ReplyHeader(id: u32, mac: P.Mac): (p: seq<byte>)
    ensures |p| == HEADER_SIZE
  {
    [P.BOOTREPLY, 1, 6, 0] + Bytes32(id) + ZeroBytes(20) + mac
  }

  lemma ReplyHeaderDecodes(id: u32, mac: P.Mac)
    ensures Addressed(ReplyHeader(id, mac), mac) && Be32(ReplyHeader(id, mac)[4..8]) == id
    ensures P.ForUs(ReplyHeader(id, mac), mac, id, id)
  {
    Bytes32RoundTrip(id);
    var p := ReplyHeader(id, mac);
    assert p[4..8] == Bytes32(id) && p[28..34] == mac;
    hide Be32, Bytes32;
  }

  /**
   Every reply the client accepts is a BOOTREPLY for its hardware address with an id it sent in
   this session. As long as the id has not wrapped in it, it accepts every such reply.
   */
  lemma AcceptedIsOwn(ms: seq<Machine>, ins: seq<Input>, n: nat, p: seq<byte>, mac: P.Mac)
    requires Run(ms, ins) && n <= |ins| && ms[n].history.log != [] && |p| >= HEADER_SIZE
    ensures Passes(ms[n], p, mac) ==> Addressed(p, mac) && Own(ms[n], p)
    ensures ms[n].initialXid + ms[n].history.bumps < U32 ==>
      (Passes(ms[n], p, mac) <==> Addressed(p, mac) && Own(ms[n], p))
  {
    var m, id := ms[n], Be32(p[4..8]);
    Reachable(ms, ins, n);
    assert SessionIds(m);
    hide SessionIds, SentId, Inv, Run, Be32;
    if InRange(m, id) {
      InRangeWasSent(m, id);
    } else if m.initialXid + m.history.bumps < U32 && Own(m, p) {
      UnwrappedSent(m, id);
    }
  }

  /** The exact condition under which the range test tells the client's own ids from others. */
  lemma AcceptsOwnIff(ms: seq<Machine>, ins: seq<Input>, n: nat, mac: P.Mac)
    requires Run(ms, ins) && n <= |ins| && ms[n].history.log != []
    ensures AcceptsOwn(ms[n], mac) <==> Unbroken(ms[n])
  {
    var m := ms[n];
    Reachable(ms, ins, n);
    assert SessionIds(m);
    hide SessionIds, SentId, Inv, Run, Be32;
    if Unbroken(m) {
      forall p: seq<byte> | |p| >= HEADER_SIZE && Addressed(p, mac)
        ensures Passes(m, p, mac) <==> Own(m, p)
      {
        AcceptedIsOwn(ms, ins, n, p, mac);
      }
    } else {
      var id := BrokenSent(m);
      ReplyHeaderDecodes(id, mac);
      hide ReplyHeader;
      assert !Passes(m, ReplyHeader(id, mac), mac) && Own(m, ReplyHeader(id, mac));
    }
  }

  // ---- Wrapped ids ----

  /** No payload whatever passes the tests. */
  ghost predicate Deaf(m: Machine) {
    forall p: seq<byte>, mac: P.Mac | |p| >= HEADER_SIZE :: !Passes(m, p, mac)
  }

  lemma DeafIff(m: Machine)
    ensures Deaf(m) <==> m.xid < m.initialXid
  {
    var mac: P.Mac := ZeroBytes(6);
    ReplyHeaderDecodes(m.initialXid, mac);
    hide Be32, ReplyHeader;
    if m.xid >= m.initialXid {
      assert Passes(m, ReplyHeader(m.initialXid, mac), mac);
    }
  }

  /** Nothing a deaf client hears takes it out of Discover. */
  lemma DeafStep(m: Machine, i: Input)
    requires Legal(i) && Admitted(m, i) && m.phase == Discover && m.xid < m.initialXid
    ensures var m' := Step(m, i);
      && m'.phase == Discover && m'.initialXid == m.initialXid
      && m.history.bumps <= m'.history.bumps <= m.history.bumps + 1
  {
    hide Wrap32;
  }

  /**
   Once the id has wrapped the client is deaf, and stays in Discover for as many updates as it
   takes the ids to come round.
   */
  lemma {:induction false} WrappedStaysDeaf(ms: seq<Machine>, ins: seq<Input>, n: nat, k: nat)
    requires Run(ms, ins) && n <= k <= |ins| && ms[n].phase == Discover
    requires U32 <= ms[n].initialXid + ms[n].history.bumps && ms[n].history.bumps + (k - n) < U32
    ensures ms[k].phase == Discover && Deaf(ms[k]) && ms[k].initialXid == ms[n].initialXid
    ensures ms[n].history.bumps <= ms[k].history.bumps <= ms[n].history.bumps + (k - n)
    decreases k
  {
    hide Step, Deaf;
    if k > n {
      WrappedStaysDeaf(ms, ins, n, k - 1);
      DeafIff(ms[k - 1]);
      DeafStep(ms[k - 1], ins[k - 1]);
    }
    Reachable(ms, ins, k);
    assert SessionIds(ms[k]);
    hide Inv, Run;
    DeafIff(ms[k]);
  }

  /** From the highest id there is, a second without an answer, and an offer under the second id. */
  const WRAPPING: seq<Input> :=
    [Quiet(0).(random := U32 - 1), Quiet(1001), Quiet(1002).(recv := true)]

  /**
   Such runs exist: the client sends its second DISCOVER under id 0, and hears an answer to just
   that id in vain.
   */
  lemma WrappingRun() returns (ms: seq<Machine>, ins: seq<Input>)
    ensures Run(ms, ins) && |ins| == 3
    ensures ms[2].phase == Discover && SentId(ms[2].history.log, ms[2].history.session, 0) && Deaf(ms[2])
    ensures ins[2].recv && ins[2].reply.xid == 0 && ms[3].phase == Discover
  {
    ins := WRAPPING;
    ms := Play(BOOT, ins);
    hide Play, SentId, Deaf;
    assert ms[1] == Step(BOOT, ins[0]) && ms[2] == Step(ms[1], ins[1]) && ms[3] == Step(ms[2], ins[2]);
    assert ms[1].phase == Discover && ms[1].initialXid == ms[1].xid == U32 - 1 && |ms[1].history.log| == 1;
    assert ms[2].phase == Discover && ms[2].initialXid == U32 - 1 && ms[2].xid == 0 && ms[2].history.session == 0;
    assert ms[2].history.log[1].xid == 0;
    assert SentId(ms[2].history.log, 0, 0);
    DeafIff(ms[2]);
  }
}

/** The DNS cache: eight slots whose expired entries are cleared only when somebody looks at them. */
module DnsCache {
  import opened Words

  const SIZE: nat := 8
  const LATEST: u64 := 0xFFFF_FFFF_FFFF_FFFF

  datatype Entry = Entry(filled: bool, expiresAt: u64, queryId: u16, ip: Ipv4)

  const UNSET := Entry(false, 0, 0, [0, 0, 0, 0])

  predicate Live(e: Entry, now: u64) {
    e.filled && now <= e.expiresAt
  }

  predicate Matches(e: Entry, now: u64, id: u16) {
    Live(e, now) && e.queryId == id
  }

  /** An entry after somebody looked at it: if it has expired, its flag is gone. */
  function Swept(e: Entry, now: u64): Entry {
    if e.filled && e.expiresAt < now then e.(filled := false) else e
  }

  /** The first matching slot from `i` on, or the number of slots. */
  function MatchFrom(es: seq<Entry>, now: u64, id: u16, i: nat): (k: nat)
    requires i <= |es|
    ensures i <= k <= |es|
    ensures k < |es| ==> Matches(es[k], now, id)
    ensures forall j | i <= j < k :: !Matches(es[j], now, id)
    decreases |es| - i
  {
    if i == |es| || Matches(es[i], now, id) then i else MatchFrom(es, now, id, i + 1)
  }

  /** The first slot from `i` on that may be filled, or the number of slots. */
  function FreeFrom(es: seq<Entry>, now: u64, i: nat): (k: nat)
    requires i <= |es|
    ensures i <= k <= |es|
    ensures k < |es| ==> !Live(es[k], now)
    ensures forall j | i <= j < k :: Live(es[j], now)
    decreases |es| - i
  {
    if i == |es| || !Live(es[i], now) then i else FreeFrom(es, now, i + 1)
  }

  /** The first of the earliest expiries among the first `n` slots. */
  function Soonest(es: seq<Entry>, n: nat): (k: nat)
    requires 0 < n <= |es|
    ensures k < n
    ensures forall j | 0 <= j < n :: es[k].expiresAt <= es[j].expiresAt
    ensures forall j | 0 <= j < k :: es[k].expiresAt < es[j].expiresAt
  {
    if n == 1 then 0 else
    var k := Soonest(es, n - 1);
    if es[n - 1].expiresAt < es[k].expiresAt then n - 1 else k
  }

  // ---- Operations ----

  datatype Op =
    | Get(now: u64, id: u16)
    | Has(now: u64, id: u16)
    | Store(now: u64, id: u16, ip: Ipv4, expiresAt: u64)

  datatype Answer = Hit(ip: Ipv4) | Present | Absent | Stored

  /** Where a new entry goes. */
  function Slot(es: seq<Entry>, now: u64): (k: nat)
    requires es != []
    ensures k < |es|
  {
    var free := FreeFrom(es, now, 0);
    if free < |es| then free else Soonest(es, |es|)
  }

  function Put(es: seq<Entry>, now: u64, id: u16, ip: Ipv4, expiresAt: u64): seq<Entry>
    requires es != []
  {
    es[Slot(es, now) := Entry(true, expiresAt, id, ip)]
  }

  function SweptTo(es: seq<Entry>, now: u64, n: nat): (fs: seq<Entry>)
    requires n <= |es|
    ensures |fs| == |es|
    ensures forall i | 0 <= i < |es| :: fs[i] == if i < n then Swept(es[i], now) else es[i]
  {
    if n == 0 then es else SweptTo(es, now, n - 1)[n - 1 := Swept(es[n - 1], now)]
  }

  /** What a lookup leaves: everything it went past has been swept. */
  function Looked(es: seq<Entry>, now: u64, id: u16): seq<Entry> {
    var k := MatchFrom(es, now, id, 0);
    SweptTo(es, now, if k < |es| then k + 1 else k)
  }

  function AnswerTo(es: seq<Entry>, op: Op): Answer {
    match op
    case Get(now, id) => var k := MatchFrom(es, now, id, 0); if k < |es| then Hit(es[k].ip) else Absent
    case Has(now, id) => if MatchFrom(es, now, id, 0) < |es| then Present else Absent
    case Store(_, _, _, _) => Stored
  }

  /** The cache as it is. */
  function Lazy(es: seq<Entry>, op: Op): seq<Entry>
    requires es != []
  {
    match op
    case Get(now, id) => Looked(es, now, id)
    case Has(now, id) => Looked(es, now, id)
    case Store(now, id, ip, expiresAt) => Put(es, now, id, ip, expiresAt)
  }

  /** The simpler store: lookups change nothing, and expiry is tested when it matters. */
  function Timed(es: seq<Entry>, op: Op): seq<Entry>
    requires es != []
  {
    match op
    case Get(_, _) => es
    case Has(_, _) => es
    case Store(now, id, ip, expiresAt) => Put(es, now, id, ip, expiresAt)
  }

  // ---- The two agree ----

  /** Slot by slot, the same live entries. */
  ghost predicate Agree(es: seq<Entry>, fs: seq<Entry>, now: u64) {
    && |es| == |fs|
    && forall i | 0 <= i < |es| :: (Live(es[i], now) || Live(fs[i], now)) ==> es[i] == fs[i]
  }

  lemma AgreeLater(es: seq<Entry>, fs: seq<Entry>, now: u64, later: u64)
    requires Agree(es, fs, now) && now <= later
    ensures Agree(es, fs, later)
  {
    forall i | 0 <= i < |es| && (Live(es[i], later) || Live(fs[i], later))
      ensures es[i] == fs[i]
    {
      assert Live(es[i], now) || Live(fs[i], now);
    }
  }

  lemma {:induction false} AgreeMatch(es: seq<Entry>, fs: seq<Entry>, now: u64, id: u16, i: nat)
    requires Agree(es, fs, now) && i <= |es|
    ensures MatchFrom(es, now, id, i) == MatchFrom(fs, now, id, i)
    decreases |es| - i
  {
    if i < |es| {
      AgreeMatch(es, fs, now, id, i + 1);
    }
  }

  lemma {:induction false} AgreeFree(es: seq<Entry>, fs: seq<Entry>, now: u64, i: nat)
    requires Agree(es, fs, now) && i <= |es|
    ensures FreeFrom(es, now, i) == FreeFrom(fs, now, i)
    decreases |es| - i
  {
    if i < |es| {
      AgreeFree(es, fs, now, i + 1);
    }
  }

  lemma AgreeSlot(es: seq<Entry>, fs: seq<Entry>, now: u64)
    requires Agree(es, fs, now) && es != []
    ensures Slot(es, now) == Slot(fs, now)
  {
    AgreeFree(es, fs, now, 0);
    if FreeFrom(es, now, 0) == |es| {
      assert es == fs;
    }
  }

  lemma AgreeStep(es: seq<Entry>, fs: seq<Entry>, op: Op)
    requires Agree(es, fs, op.now) && es != []
    ensures AnswerTo(es, op) == AnswerTo(fs, op)
    ensures Agree(Lazy(es, op), Timed(fs, op), op.now)
  {
    match op
    case Get(now, id) => AgreeMatch(es, fs, now, id, 0);
    case Has(now, id) => AgreeMatch(es, fs, now, id, 0);
    case Store(now, id, ip, expiresAt) => AgreeSlot(es, fs, now);
  }

  /** On a clock that never runs backwards. */
  ghost predicate Ordered(ops: seq<Op>) {
    forall j, k | 0 <= j < k < |ops| :: ops[j].now <= ops[k].now
  }

  const EMPTY: seq<Entry> := [UNSET, UNSET, UNSET, UNSET, UNSET, UNSET, UNSET, UNSET]

  function AfterLazy(ops: seq<Op>): (es: seq<Entry>)
    ensures |es| == SIZE
  {
    if ops == [] then EMPTY else Lazy(AfterLazy(ops[..|ops| - 1]), ops[|ops| - 1])
  }

  function AfterTimed(ops: seq<Op>): (es: seq<Entry>)
    ensures |es| == SIZE
  {
    if ops == [] then EMPTY else Timed(AfterTimed(ops[..|ops| - 1]), ops[|ops| - 1])
  }

  lemma {:induction false} RunsAgree(ops: seq<Op>, now: u64)
    requires Ordered(ops) && (ops != [] ==> ops[|ops| - 1].now <= now)
    ensures Agree(AfterLazy(ops), AfterTimed(ops), now)
    decreases |ops|
  {
    if ops != [] {
      var last := ops[|ops| - 1];
      RunsAgree(ops[..|ops| - 1], last.now);
      AgreeStep(AfterLazy(ops[..|ops| - 1]), AfterTimed(ops[..|ops| - 1]), last);
      AgreeLater(AfterLazy(ops), AfterTimed(ops), last.now, now);
    }
  }

  lemma OrderedPrefix(ops: seq<Op>, n: nat)
    requires Ordered(ops) && n <= |ops|
    ensures Ordered(ops[..n])
  {
  }

  /** Clearing is unobservable: every operation of every sequence is answered alike. */
  lemma ClearingUnobservable(ops: seq<Op>, n: nat)
    requires Ordered(ops) && n < |ops|
    ensures AnswerTo(AfterLazy(ops[..n]), ops[n]) == AnswerTo(AfterTimed(ops[..n]), ops[n])
  {
    OrderedPrefix(ops, n);
    RunsAgree(ops[..n], ops[n].now);
    AgreeStep(AfterLazy(ops[..n]), AfterTimed(ops[..n]), ops[n]);
  }

  // ---- What lookups find ----

  /** Some operation stored just this entry. */
  ghost predicate StoredBy(ops: seq<Op>, e: Entry) {
    exists m :: 0 <= m < |ops| && ops[m].Store?
      && ops[m].id == e.queryId && ops[m].ip == e.ip && ops[m].expiresAt == e.expiresAt
  }

  lemma StoredByLonger(ops: seq<Op>, e: Entry)
    requires ops != [] && StoredBy(ops[..|ops| - 1], e)
    ensures StoredBy(ops, e)
  {
    var front := ops[..|ops| - 1];
    var m :| 0 <= m < |front| && front[m].Store?
      && front[m].id == e.queryId && front[m].ip == e.ip && front[m].expiresAt == e.expiresAt;
    assert ops[m] == front[m];
  }

  lemma {:induction false} FilledWasStored(ops: seq<Op>, k: nat)
    requires k < SIZE && AfterLazy(ops)[k].filled
    ensures StoredBy(ops, AfterLazy(ops)[k])
    decreases |ops|
  {
    if ops != [] {
      var front, last := ops[..|ops| - 1], ops[|ops| - 1];
      if AfterLazy(ops)[k] == AfterLazy(front)[k] {
        FilledWasStored(front, k);
        StoredByLonger(ops, AfterLazy(front)[k]);
      } else {
        assert last.Store?;
      }
    }
  }

  /** One of the eight slots is in use, has not expired by `now`, and has this id. */
  ghost predicate Known(es: seq<Entry>, now: u64, id: u16)
    requires |es| == 8
  {
    exists k :: 0 <= k < 8 && es[k].filled && now <= es[k].expiresAt && es[k].queryId == id
  }

  lemma KnownIff(es: seq<Entry>, now: u64, id: u16)
    requires |es| == 8
    ensures Known(es, now, id) <==> MatchFrom(es, now, id, 0) < 8
  {
    var k := MatchFrom(es, now, id, 0);
    if k < 8 {
      assert es[k].filled && now <= es[k].expiresAt && es[k].queryId == id;
    }
    if Known(es, now, id) {
      var j :| 0 <= j < 8 && es[j].filled && now <= es[j].expiresAt && es[j].queryId == id;
      assert Matches(es[j], now, id);
    }
  }

  /** Some operation stored this address under this id, until this time. */
  ghost predicate StoredUntil(ops: seq<Op>, id: u16, ip: Ipv4, expiresAt: u64) {
    exists m :: 0 <= m < |ops| && ops[m].Store? && ops[m].id == id && ops[m].ip == ip && ops[m].expiresAt == expiresAt
  }

  /**
   `get` finds an address exactly when some slot holds a live entry under that id; and what it
   finds was stored under that id, with an expiry that has not passed. `has_entry` says yes exactly
   when `get` would find one.
   */
  lemma GetFindsStored(ops: seq<Op>, now: u64, id: u16)
    ensures AnswerTo(AfterLazy(ops), Get(now, id)).Hit? <==> Known(AfterLazy(ops), now, id)
    ensures var a := AnswerTo(AfterLazy(ops), Get(now, id));
      a.Hit? ==> exists expiresAt :: now <= expiresAt && StoredUntil(ops, id, a.ip, expiresAt)
    ensures AnswerTo(AfterLazy(ops), Has(now, id)) == Present <==> Known(AfterLazy(ops), now, id)
    ensures AnswerTo(AfterLazy(ops), Has(now, id)) == Absent <==> !Known(AfterLazy(ops), now, id)
  {
    var es := AfterLazy(ops);
    var k := MatchFrom(es, now, id, 0);
    KnownIff(es, now, id);
    if k < SIZE {
      FilledWasStored(ops, k);
      assert StoredUntil(ops, id, es[k].ip, es[k].expiresAt);
    }
  }

  /** A stored address is found again at once, unless a live entry under its id stood in a lower slot. */
  lemma StoreThenGet(es: seq<Entry>, now: u64, id: u16, ip: Ipv4, expiresAt: u64)
    requires es != [] && now <= expiresAt
    ensures var k := Slot(es, now);
      MatchFrom(Put(es, now, id, ip, expiresAt), now, id, 0)
      == if MatchFrom(es, now, id, 0) < k then MatchFrom(es, now, id, 0) else k
  {
    var fs := Put(es, now, id, ip, expiresAt);
    var k := Slot(es, now);
    assert Matches(fs[k], now, id);
    assert forall j | 0 <= j < |es| && j != k :: fs[j] == es[j];
    var m := MatchFrom(fs, now, id, 0);
    if m < k {
      assert Matches(es[m], now, id);
    }
  }

  // ---- What is lost ----

  /** Every slot was live, and slot `k` was the first of those that expire earliest. */
  ghost predicate Evicts(es: seq<Entry>, op: Op, k: nat) {
    && op.Store? && k < |es|
    && (forall j | 0 <= j < |es| :: Live(es[j], op.now) && es[k].expiresAt <= es[j].expiresAt)
    && (forall j | 0 <= j < k :: es[k].expiresAt < es[j].expiresAt)
  }

  lemma LiveKept(es: seq<Entry>, op: Op, k: nat)
    requires es != [] && k < |es| && Live(es[k], op.now)
    ensures Lazy(es, op)[k] == es[k] || Evicts(es, op, k)
  {
  }

  /** Some store since the first `m` operations evicted what slot `k` held. */
  ghost predicate Evicted(ops: seq<Op>, m: nat, k: nat) {
    exists n :: m <= n < |ops| && Evicts(AfterLazy(ops[..n]), ops[n], k)
  }

  lemma EvictedLonger(ops: seq<Op>, m: nat, k: nat)
    requires ops != [] && Evicted(ops[..|ops| - 1], m, k)
    ensures Evicted(ops, m, k)
  {
    hide Evicts, AfterLazy;
    var front := ops[..|ops| - 1];
    var n :| m <= n < |front| && Evicts(AfterLazy(front[..n]), front[n], k);
    assert front[..n] == ops[..n];
  }

  /**
   From the moment it is stored until it expires, an entry stays where it is, unless some store
   found all eight slots live and this one the first to expire.
   */
  lemma {:induction false} KeptUntilEvicted(ops: seq<Op>, m: nat, k: nat)
    requires Ordered(ops) && m <= |ops| && k < SIZE
    requires AfterLazy(ops[..m])[k].filled
    requires m < |ops| ==> ops[|ops| - 1].now <= AfterLazy(ops[..m])[k].expiresAt
    ensures AfterLazy(ops)[k] == AfterLazy(ops[..m])[k] || Evicted(ops, m, k)
    decreases |ops|
  {
    if m == |ops| {
      assert ops[..m] == ops;
    } else {
      var front, last := ops[..|ops| - 1], ops[|ops| - 1];
      assert front[..m] == ops[..m];
      OrderedPrefix(ops, |ops| - 1);
      var before := AfterLazy(front);
      assert AfterLazy(ops) == Lazy(before, last);
      hide AfterLazy, Lazy, Evicts;
      KeptUntilEvicted(front, m, k);
      if Evicted(front, m, k) {
        EvictedLonger(ops, m, k);
      } else {
        LiveKept(before, last, k);
      }
    }
  }

  /** No live entry has this id. */
  ghost predicate NoneUnder(es: seq<Entry>, now: u64, id: u16) {
    forall j | 0 <= j < |es| :: !(es[j].filled && now <= es[j].expiresAt && es[j].queryId == id)
  }

  /** Slot `k` holds `e`, and no other slot a live entry under its id. */
  ghost predicate OnlyAt(es: seq<Entry>, now: u64, e: Entry, k: nat) {
    && k < |es| && es[k] == e
    && forall j | 0 <= j < |es| && j != k :: !Matches(es[j], now, e.queryId)
  }

  lemma SlotEvicts(es: seq<Entry>, op: Op, k: nat)
    requires es != [] && op.Store? && k < |es| && Live(es[k], op.now)
    ensures Evicts(es, op, k) <==> Slot(es, op.now) == k
  {
  }

  lemma NoneStays(es: seq<Entry>, now: u64, id: u16, op: Op)
    requires es != [] && NoneUnder(es, now, id) && now <= op.now && (op.Store? ==> op.id != id)
    ensures NoneUnder(Lazy(es, op), op.now, id)
  {
  }

  lemma OnlyStays(es: seq<Entry>, now: u64, e: Entry, k: nat, op: Op)
    requires es != [] && OnlyAt(es, now, e, k) && now <= op.now && Live(e, op.now)
    requires op.Store? ==> op.id != e.queryId
    ensures if Evicts(es, op, k) then NoneUnder(Lazy(es, op), op.now, e.queryId) else OnlyAt(Lazy(es, op), op.now, e, k)
  {
    if op.Store? {
      SlotEvicts(es, op, k);
    }
  }

  /** Operation `m` stores under an id that no live entry has, and no later one stores under it. */
  ghost predicate StoresAlone(ops: seq<Op>, m: nat) {
    && m < |ops| && ops[m].Store? && NoneUnder(AfterLazy(ops[..m]), ops[m].now, ops[m].id)
    && forall j | m < j < |ops| && ops[j].Store? :: ops[j].id != ops[m].id
  }

  lemma AloneAtEnd(ops: seq<Op>, m: nat)
    requires |ops| == m + 1 && ops[m].Store? && NoneUnder(AfterLazy(ops[..m]), ops[m].now, ops[m].id)
    ensures StoresAlone(ops, m)
  {
    hide AfterLazy, NoneUnder;
  }

  function Stores(op: Op): Entry
    requires op.Store?
  {
    Entry(true, op.expiresAt, op.id, op.ip)
  }

  lemma JustStored(ops: seq<Op>, m: nat)
    requires StoresAlone(ops, m) && |ops| == m + 1
    ensures OnlyAt(AfterLazy(ops), ops[m].now, Stores(ops[m]), Slot(AfterLazy(ops[..m]), ops[m].now))
  {
    assert AfterLazy(ops) == Lazy(AfterLazy(ops[..m]), ops[m]);
  }

  lemma LastDone(ops: seq<Op>, m: nat)
    requires m < |ops|
    ensures AfterLazy(ops) == Lazy(AfterLazy(ops[..|ops| - 1]), ops[|ops| - 1])
    ensures ops[..|ops| - 1][..m] == ops[..m]
  {
  }

  lemma EvictedNow(ops: seq<Op>, m: nat, k: nat)
    requires ops != [] && m <= |ops| - 1 && !Evicted(ops[..|ops| - 1], m, k)
    ensures Evicted(ops, m, k) <==> Evicts(AfterLazy(ops[..|ops| - 1]), ops[|ops| - 1], k)
  {
    hide Evicts, AfterLazy;
    var front := ops[..|ops| - 1];
    forall n | m <= n < |front|
      ensures !Evicts(AfterLazy(ops[..n]), ops[n], k)
    {
      assert front[..n] == ops[..n] && front[n] == ops[n];
    }
    assert ops[..|ops| - 1] == front;
  }

  /** What the slots hold of an entry stored alone. */
  ghost predicate StillThere(ops: seq<Op>, m: nat)
    requires m < |ops| && ops[m].Store?
  {
    var k, es, now := Slot(AfterLazy(ops[..m]), ops[m].now), AfterLazy(ops), ops[|ops| - 1].now;
    if Evicted(ops, m + 1, k) then NoneUnder(es, now, ops[m].id) else OnlyAt(es, now, Stores(ops[m]), k)
  }

  lemma StillThereNext(ops: seq<Op>, m: nat)
    requires Ordered(ops) && StoresAlone(ops, m) && ops[|ops| - 1].now <= ops[m].expiresAt
    requires m < |ops| - 1 && StillThere(ops[..|ops| - 1], m)
    ensures StillThere(ops, m)
  {
    hide AfterLazy, Lazy, Evicts, Evicted, NoneUnder, OnlyAt, Slot;
    var front, last, k := ops[..|ops| - 1], ops[|ops| - 1], Slot(AfterLazy(ops[..m]), ops[m].now);
    LastDone(ops, m);
    var before, earlier := AfterLazy(front), front[|front| - 1].now;
    if Evicted(front, m + 1, k) {
      EvictedLonger(ops, m + 1, k);
      NoneStays(before, earlier, ops[m].id, last);
    } else {
      EvictedNow(ops, m + 1, k);
      OnlyStays(before, earlier, Stores(ops[m]), k, last);
    }
  }

  lemma AloneBefore(ops: seq<Op>, m: nat)
    requires Ordered(ops) && StoresAlone(ops, m) && m < |ops| - 1
    ensures Ordered(ops[..|ops| - 1]) && StoresAlone(ops[..|ops| - 1], m)
    ensures ops[..|ops| - 1][|ops| - 2].now <= ops[|ops| - 1].now
  {
    hide AfterLazy, NoneUnder;
    assert ops[..|ops| - 1][..m] == ops[..m];
  }

  /** Once stored alone, an entry is there until it expires, unless it is evicted. */
  lemma {:induction false} StoredAloneStays(ops: seq<Op>, m: nat)
    requires Ordered(ops) && StoresAlone(ops, m) && ops[|ops| - 1].now <= ops[m].expiresAt
    ensures StillThere(ops, m)
    decreases |ops|
  {
    if |ops| == m + 1 {
      JustStored(ops, m);
    } else {
      AloneBefore(ops, m);
      hide AfterLazy, Ordered, StoresAlone, StillThere;
      StoredAloneStays(ops[..|ops| - 1], m);
      StillThereNext(ops, m);
    }
  }

  /**
   An address stored under an id that no live entry has, and not stored under again, is what
   every lookup up to its expiry answers, unless it was evicted; and then lookups find nothing.
   */
  lemma StoredIsFound(ops: seq<Op>, m: nat, now: u64)
    requires Ordered(ops) && StoresAlone(ops, m) && ops[|ops| - 1].now <= now <= ops[m].expiresAt
    ensures var lost := Evicted(ops, m + 1, Slot(AfterLazy(ops[..m]), ops[m].now));
      && AnswerTo(AfterLazy(ops), Get(now, ops[m].id)) == (if lost then Absent else Hit(ops[m].ip))
      && AnswerTo(AfterLazy(ops), Has(now, ops[m].id)) == (if lost then Absent else Present)
  {
    StoredAloneStays(ops, m);
    hide AfterLazy, Slot, Evicted;
  }

  // ---- The cache ----

  /** What the store that never clears anything would have answered, if the clock has not run backwards. */
  ghost predicate RightAnswer(ops: seq<Op>, op: Op, answer: Answer) {
    && answer == AnswerTo(AfterLazy(ops), op)
    && (Ordered(ops + [op]) ==> answer == AnswerTo(AfterTimed(ops), op))
  }

  lemma StoreIsPut(es: seq<Entry>, now: u64, id: u16, ip: Ipv4, expiresAt: u64)
    requires es != []
    ensures Lazy(es, Op.Store(now, id, ip, expiresAt)) == Put(es, now, id, ip, expiresAt)
  {
  }

  class DNSCache {
    const entries: array<Entry>
    /** Every operation so far. */
    ghost var ops: seq<Op>

    ghost predicate Valid()
      reads this, entries
    {
      entries.Length == SIZE && entries[..] == AfterLazy(ops)
    }

    constructor ()
      ensures Valid() && fresh(entries) && ops == []
    {
      entries := new Entry[SIZE](_ => UNSET);
      ops := [];
    }

    method IsFilled(i: nat, now: u64) returns (filled: bool)
      requires i < entries.Length
      modifies entries
      ensures filled == Live(old(entries[i]), now)
      ensures entries[..] == old(entries[..])[i := Swept(old(entries[i]), now)]
    {
      if !entries[i].filled {
        return false;
      }
      if entries[i].expiresAt < now {
        entries[i] := entries[i].(filled := false);
        return false;
      }
      return true;
    }

    /** Looks through the slots up to the first match, sweeping them on the way. */
    method Find(now: u64, id: u16) returns (k: nat)
      requires entries.Length == SIZE
      modifies entries
      ensures k == MatchFrom(old(entries[..]), now, id, 0)
      ensures entries[..] == Looked(old(entries[..]), now, id)
      ensures k < SIZE ==> entries[k] == old(entries[k])
    {
      ghost var es := entries[..];
      for i := 0 to SIZE
        invariant entries[..] == SweptTo(es, now, i)
        invariant MatchFrom(es, now, id, 0) == MatchFrom(es, now, id, i)
      {
        var filled := IsFilled(i, now);
        if filled && entries[i].queryId == id {
          return i;
        }
      }
      return SIZE;
    }

    method Get(now: u64, id: u16) returns (answer: Answer)
      requires Valid()
      modifies `ops, entries
      ensures Valid() && ops == old(ops) + [Op.Get(now, id)]
      ensures answer.Hit? <==> Known(old(entries[..]), now, id)
      ensures RightAnswer(old(ops), Op.Get(now, id), answer)
    {
      Answered(ops, Op.Get(now, id));
      KnownIff(entries[..], now, id);
      var k := Find(now, id);
      hide Looked, AfterTimed, Ordered;
      ops := ops + [Op.Get(now, id)];
      answer := if k < SIZE then Hit(entries[k].ip) else Absent;
    }

    method HasEntry(now: u64, id: u16) returns (answer: bool)
      requires Valid()
      modifies `ops, entries
      ensures Valid() && ops == old(ops) + [Op.Has(now, id)]
      ensures answer <==> Known(old(entries[..]), now, id)
      ensures RightAnswer(old(ops), Op.Has(now, id), if answer then Present else Absent)
    {
      Answered(ops, Op.Has(now, id));
      KnownIff(entries[..], now, id);
      var k := Find(now, id);
      hide Looked, AfterTimed, Ordered;
      ops := ops + [Op.Has(now, id)];
      answer := k < SIZE;
    }

    method Store(id: u16, ip: Ipv4, now: u64, expiresAt: u64)
      requires Valid()
      modifies `ops, entries
      ensures Valid() && ops == old(ops) + [Op.Store(now, id, ip, expiresAt)]
    {
      hide AfterLazy, AfterTimed, Ordered, AnswerTo, Lazy, Timed;
      ghost var es := entries[..];
      Answered(ops, Op.Store(now, id, ip, expiresAt));
      StoreIsPut(es, now, id, ip, expiresAt);
      ops := ops + [Op.Store(now, id, ip, expiresAt)];
      var candidate := 0;
      var candidateExpiry := LATEST;
      for i := 0 to SIZE
        invariant ops == old(ops) + [Op.Store(now, id, ip, expiresAt)]
        invariant entries[..] == es && 0 <= candidate < SIZE
        invariant FreeFrom(es, now, 0) == FreeFrom(es, now, i)
        invariant i == 0 ==> candidate == 0 && candidateExpiry == LATEST
        invariant i > 0 ==> candidate == Soonest(es, i) && candidateExpiry == es[candidate].expiresAt
      {
        var filled := IsFilled(i, now);
        if !filled {
          entries[i] := Entry(true, expiresAt, id, ip);
          return;
        } else if entries[i].expiresAt < candidateExpiry {
          candidate := i;
          candidateExpiry := entries[i].expiresAt;
        }
      }
      entries[candidate] := Entry(true, expiresAt, id, ip);
    }
  }

  lemma Answered(ops: seq<Op>, op: Op)
    ensures Ordered(ops + [op]) ==> AnswerTo(AfterLazy(ops), op) == AnswerTo(AfterTimed(ops), op)
    ensures AfterLazy(ops + [op]) == Lazy(AfterLazy(ops), op)
  {
    assert (ops + [op])[..|ops|] == ops;
    if Ordered(ops + [op]) {
      ClearingUnobservable(ops + [op], |ops|);
    }
  }
}

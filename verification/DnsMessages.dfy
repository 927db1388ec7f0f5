/** DNS messages (RFC 1035, section 4): the query as it is sent, and the scan of a response for its first address. */
module DnsMessages {
  import opened Words
  import opened DnsNames
  import opened DnsCache
  import Framing

  const HEADER_SIZE: nat := 12
  const MAX_PACKET_SIZE: nat := 256
  const TYPE_A: u16 := 1
  const TYPE_CNAME: u16 := 5
  const CLASS_IN: u16 := 1

  // ---- Queries ----

  /** Recursion desired, one question. */
  function HeaderSent(id: u16): (h: seq<byte>)
    ensures |h| == HEADER_SIZE
  {
    Bytes16(id) + [0x01, 0x00] + Bytes16(1) + Bytes16(0) + Bytes16(0) + Bytes16(0)
  }

  const QUERY_TAIL: seq<byte> := [0x00] + Bytes16(TYPE_A) + Bytes16(CLASS_IN)

  /** The part of a query in front of the terminator, and whether the rest is sent at all. */
  function Gathered(id: u16, hostname: seq<byte>): (seq<byte>, bool) {
    (HeaderSent(id) + Emitted(Split(hostname)).0, Emitted(Split(hostname)).1)
  }

  function QuerySent(id: u16, hostname: seq<byte>): seq<byte> {
    Gathered(id, hostname).0 + QUERY_TAIL
  }

  // ---- Scanning a response ----

  datatype Scanned = Overrun | Ignored | Found(ip: Ipv4, ttl: u32)

  function SkipQuestions(p: seq<byte>, o: nat, n: nat): (end: Option<nat>)
    ensures end.Some? ==> o <= end.value
    decreases n
  {
    if n == 0 then Some(o) else
    match QuestionNameEnd(p, o)
    case None => None
    case Some(e) => SkipQuestions(p, e + 5, n - 1)
  }

  /** The address and lifetime in the first A record of class IN among the next `n`, found as the scan finds it. */
  function ScanAnswers(p: seq<byte>, o: nat, n: nat): Scanned
    decreases n
  {
    if n == 0 then Ignored else
    match AnswerNameEnd(p, o)
    case None => Overrun
    case Some(e) =>
      if e + 5 > |p| then Overrun
      else if Be16(p[e + 1], p[e + 2]) == TYPE_A && Be16(p[e + 3], p[e + 4]) == CLASS_IN then
        if e + 15 > |p| then Overrun else Found(p[e + 11..e + 15], Be32(p[e + 5..e + 9]))
      else ScanAnswers(p, e + 15, n - 1)
  }

  /** Overrun means that a byte behind the packet would be read. */
  function Scan(p: seq<byte>): Scanned {
    if |p| < 3 then Overrun
    else if p[2] < 0x80 then Ignored
    else if |p| < 4 then Overrun
    else if p[3] % 16 != 0 then Ignored
    else if |p| < 8 then Overrun
    else match SkipQuestions(p, HEADER_SIZE, Be16(p[4], p[5]))
      case None => Overrun
      case Some(o) => ScanAnswers(p, o, Be16(p[6], p[7]))
  }

  /** The scan stays inside the packet, or is not made at all because the packet is too long. */
  predicate Safe(p: seq<byte>) {
    |p| > MAX_PACKET_SIZE || !Scan(p).Overrun?
  }

  function ExpiryOf(now: u64, ttl: u32): u64 {
    Wrap64(now + Wrap32(ttl * 1000))
  }

  /** What a packet makes the client do to its cache. */
  function OpsOf(p: seq<byte>, now: u64): seq<Op>
    requires Safe(p)
  {
    if |p| > MAX_PACKET_SIZE then [] else
    match Scan(p)
    case Found(ip, ttl) => [Store(now, Be16(p[0], p[1]), ip, ExpiryOf(now, ttl))]
    case _ => []
  }

  // ---- Well-formed responses ----

  /** Labels, ended by a terminator or by a pointer into the message. */
  datatype Name = Name(labels: seq<seq<byte>>, pointer: Option<nat>) {
    ghost predicate Valid() {
      AllProper(labels) && (pointer.Some? ==> pointer.value < 0x4000)
    }

    function End(): (b: seq<byte>)
      requires pointer.Some? ==> pointer.value < 0x4000
      ensures if pointer.None? then b == [0] else |b| == 2 && b[0] >= 0xC0
    {
      match pointer case None => [0] case Some(v) => [0xC0 + v / 256, v % 256]
    }

    function Bytes(): (b: seq<byte>)
      requires pointer.Some? ==> pointer.value < 0x4000
      ensures b != []
    {
      Emitted(labels).0 + End()
    }
  }

  datatype Question = Question(labels: seq<seq<byte>>, qtype: u16, qclass: u16) {
    function Bytes(): seq<byte> {
      Emitted(labels).0 + [0] + (Bytes16(qtype) + Bytes16(qclass))
    }
  }

  datatype Record = Record(name: Name, rtype: u16, rclass: u16, ttl: u32, data: seq<byte>) {
    ghost predicate Valid() {
      name.Valid() && |data| < U16
    }

    /** Type A (1) and class IN (1). */
    predicate IsAddress() {
      rtype == 1 && rclass == 1
    }

    /** Everything behind the name. */
    function Body(): (b: seq<byte>)
      requires |data| < U16
      ensures |b| == 10 + |data|
    {
      Bytes16(rtype) + Bytes16(rclass) + Bytes32(ttl) + Bytes16(|data|) + data
    }

    function Bytes(): seq<byte>
      requires Valid()
    {
      name.Bytes() + Body()
    }
  }

  ghost predicate AllValid(rs: seq<Record>) {
    forall r | r in rs :: r.Valid()
  }

  function QuestionBytes(qs: seq<Question>): seq<byte> {
    if qs == [] then [] else qs[0].Bytes() + QuestionBytes(qs[1..])
  }

  function AnswerBytes(rs: seq<Record>): seq<byte>
    requires AllValid(rs)
  {
    if rs == [] then [] else rs[0].Bytes() + AnswerBytes(rs[1..])
  }

  /** A response without error; `rest` is whatever follows the answers. */
  datatype Response = Response(id: u16, flags: byte, code: byte, questions: seq<Question>, answers: seq<Record>,
                               authorities: u16, additionals: u16, rest: seq<byte>) {
    ghost predicate Valid() {
      && flags >= 0x80 && code % 16 == 0
      && |questions| < U16 && |answers| < U16
      && (forall q | q in questions :: AllProper(q.labels))
      && AllValid(answers)
    }

    function Header(): (h: seq<byte>)
      requires |questions| < U16 && |answers| < U16
      ensures |h| == HEADER_SIZE
    {
      Bytes16(id) + [flags, code] + Bytes16(|questions|) + Bytes16(|answers|)
      + Bytes16(authorities) + Bytes16(additionals)
    }

    function Bytes(): seq<byte>
      requires Valid()
    {
      Header() + (QuestionBytes(questions) + (AnswerBytes(answers) + rest))
    }
  }

  /** The first address record among the answers, if there is one. */
  function AddressIn(rs: seq<Record>): Scanned {
    if rs == [] then Ignored
    else if rs[0].IsAddress() && |rs[0].data| == 4 then Found(rs[0].data, rs[0].ttl)
    else AddressIn(rs[1..])
  }

  /** The first address record and all records before it have four bytes of data. */
  ghost predicate Straight(rs: seq<Record>) {
    rs != [] ==> |rs[0].data| == 4 && (!rs[0].IsAddress() ==> Straight(rs[1..]))
  }

  lemma {:induction false} AddressInIsFirst(rs: seq<Record>, k: nat)
    requires k <= |rs| && (forall j | 0 <= j < k :: !rs[j].IsAddress())
    requires k < |rs| ==> rs[k].IsAddress() && |rs[k].data| == 4
    ensures AddressIn(rs) == if k < |rs| then Found(rs[k].data, rs[k].ttl) else Ignored
    ensures Straight(rs) <==> forall j | 0 <= j < k :: |rs[j].data| == 4
    decreases |rs|
  {
    if k > 0 {
      AddressInIsFirst(rs[1..], k - 1);
      assert forall j | 0 <= j < k - 1 :: rs[1..][j] == rs[j + 1];
      assert (forall j | 0 <= j < k :: |rs[j].data| == 4) ==> forall j | 0 <= j < k - 1 :: |rs[1..][j].data| == 4;
      if |rs[0].data| == 4 && (forall j | 0 <= j < k - 1 :: |rs[1..][j].data| == 4) {
        assert forall j | 1 <= j < k :: rs[j] == rs[1..][j - 1];
      }
    }
  }

  // ---- The scan finds what the response says ----

  lemma ProperAreEmitted(labels: seq<seq<byte>>)
    requires AllProper(labels)
    ensures Emitted(labels).1
  {
    EmittedAll(labels);
  }

  lemma QuestionSkipped(p: seq<byte>, o: nat, q: Question)
    requires AllProper(q.labels) && At(p, o, q.Bytes())
    ensures QuestionNameEnd(p, o) == Some(o + |q.Bytes()| - 5)
  {
    var name, tail := Emitted(q.labels).0, Bytes16(q.qtype) + Bytes16(q.qclass);
    assert q.Bytes() == name + ([0] + tail);
    AtParts(p, o, name, [0] + tail);
    SkipEmitted(p, o, q.labels);
    AtByte(p, o + |name|, [0] + tail, 0);
  }

  lemma QuestionLength(q: Question)
    ensures |q.Bytes()| >= 5
  {
  }

  lemma QuestionsFollow(p: seq<byte>, o: nat, qs: seq<Question>)
    requires qs != [] && At(p, o, QuestionBytes(qs))
    ensures At(p, o, qs[0].Bytes()) && At(p, o + |qs[0].Bytes()|, QuestionBytes(qs[1..]))
    ensures |QuestionBytes(qs)| == |qs[0].Bytes()| + |QuestionBytes(qs[1..])|
  {
    hide At, Question.Bytes;
    AtParts(p, o, qs[0].Bytes(), QuestionBytes(qs[1..]));
  }

  /** Skipping these questions at this offset ends behind them. */
  ghost predicate SkipsAll(p: seq<byte>, o: nat, qs: seq<Question>) {
    SkipQuestions(p, o, |qs|) == Some(o + |QuestionBytes(qs)|)
  }

  lemma SkipsAllStep(p: seq<byte>, o: nat, qs: seq<Question>, first: nat, rest: nat)
    requires qs != [] && first >= 5 && QuestionNameEnd(p, o) == Some(o + first - 5)
    requires |QuestionBytes(qs[1..])| == rest && |QuestionBytes(qs)| == first + rest
    requires SkipsAll(p, o + first, qs[1..])
    ensures SkipsAll(p, o, qs)
  {
    hide QuestionBytes, SkipQuestions, QuestionNameEnd;
    SkipOne(p, o, |qs| - 1, first, rest);
  }

  lemma SkipOne(p: seq<byte>, o: nat, n: nat, first: nat, rest: nat)
    requires first >= 5 && QuestionNameEnd(p, o) == Some(o + first - 5)
    requires SkipQuestions(p, o + first, n) == Some(o + first + rest)
    ensures SkipQuestions(p, o, n + 1) == Some(o + first + rest)
  {
  }

  lemma {:induction false} QuestionsSkipped(p: seq<byte>, o: nat, qs: seq<Question>)
    requires (forall q | q in qs :: AllProper(q.labels)) && At(p, o, QuestionBytes(qs))
    ensures SkipsAll(p, o, qs)
    decreases |qs|
  {
    if qs != [] {
      hide At, Question.Bytes, QuestionBytes, AllProper, SkipsAll, QuestionNameEnd;
      QuestionLength(qs[0]);
      QuestionsFollow(p, o, qs);
      QuestionSkipped(p, o, qs[0]);
      QuestionsSkipped(p, o + |qs[0].Bytes()|, qs[1..]);
      SkipsAllStep(p, o, qs, |qs[0].Bytes()|, |QuestionBytes(qs[1..])|);
    }
  }

  lemma AnswerNameSkipped(p: seq<byte>, o: nat, name: Name)
    requires name.Valid() && At(p, o, name.Bytes())
    ensures AnswerNameEnd(p, o) == Some(o + |name.Bytes()| - 1)
  {
    var front, end := Emitted(name.labels).0, name.End();
    assert name.Bytes() == front + end;
    hide Name.Bytes, Name.End, Emitted, At, AllProper;
    AtParts(p, o, front, end);
    SkipEmitted(p, o, name.labels);
    AtByte(p, o + |front|, end, 0);
    AtEnds(p, o + |front|, end);
  }

  /** The fields of a record are where the scan looks for them, `e` being the last byte of its name. */
  lemma RecordFields(p: seq<byte>, e: nat, r: Record)
    requires r.Valid() && At(p, e + 1, r.Body())
    ensures e + 11 + |r.data| <= |p|
    ensures Be16(p[e + 1], p[e + 2]) == r.rtype && Be16(p[e + 3], p[e + 4]) == r.rclass
    ensures Be32(p[e + 5..e + 9]) == r.ttl
    ensures p[e + 11..e + 11 + |r.data|] == r.data
  {
    Bytes32RoundTrip(r.ttl);
    Framing.Be16RoundTrip(r.rtype);
    Framing.Be16RoundTrip(r.rclass);
    BodyParts(r);
    var b := r.Body();
    hide Be16, Be32, Hi, Lo, Bytes32, Record.Body;
    AtSlice(p, e + 1, b, 4, 8);
    AtSlice(p, e + 1, b, 10, |b|);
    AtByte(p, e + 1, b, 0);
    AtByte(p, e + 1, b, 1);
    AtByte(p, e + 1, b, 2);
    AtByte(p, e + 1, b, 3);
  }

  lemma BodyParts(r: Record)
    requires |r.data| < U16
    ensures r.Body()[4..8] == Bytes32(r.ttl) && r.Body()[10..] == r.data
    ensures r.Body()[..4] == Bytes16(r.rtype) + Bytes16(r.rclass)
    ensures r.Body()[0] == Hi(r.rtype) && r.Body()[1] == Lo(r.rtype)
    ensures r.Body()[2] == Hi(r.rclass) && r.Body()[3] == Lo(r.rclass)
  {
    hide Hi, Lo;
    var b := r.Body();
    assert b[..4] == Bytes16(r.rtype) + Bytes16(r.rclass);
  }

  /** One record scanned: its address if it is one, or on to where the next record starts. */
  lemma RecordScanned(p: seq<byte>, o: nat, r: Record, n: nat)
    requires r.Valid() && |r.data| == 4 && At(p, o, r.Bytes()) && n > 0
    ensures ScanAnswers(p, o, n)
         == if r.IsAddress() then Found(r.data, r.ttl) else ScanAnswers(p, o + |r.Bytes()|, n - 1)
  {
    var name := r.name.Bytes();
    AtParts(p, o, name, r.Body());
    AnswerNameSkipped(p, o, r.name);
    RecordFields(p, o + |name| - 1, r);
    hide At, Be16, Be32, Name.Bytes, Record.Body, AnswerNameEnd;
  }

  lemma AddressStep(rs: seq<Record>)
    requires rs != [] && Straight(rs)
    ensures |rs[0].data| == 4
    ensures AddressIn(rs) == if rs[0].IsAddress() then Found(rs[0].data, rs[0].ttl) else AddressIn(rs[1..])
    ensures !rs[0].IsAddress() ==> Straight(rs[1..])
  {
  }

  lemma AnswersFollow(p: seq<byte>, o: nat, rs: seq<Record>)
    requires AllValid(rs) && rs != [] && At(p, o, AnswerBytes(rs))
    ensures AllValid(rs[1..]) && rs[0].Valid()
    ensures At(p, o, rs[0].Bytes()) && At(p, o + |rs[0].Bytes()|, AnswerBytes(rs[1..]))
  {
    hide At;
    AtParts(p, o, rs[0].Bytes(), AnswerBytes(rs[1..]));
  }

  /** Scanning these records at this offset finds their first address. */
  ghost predicate ScanFinds(p: seq<byte>, o: nat, rs: seq<Record>) {
    ScanAnswers(p, o, |rs|) == AddressIn(rs)
  }

  lemma ScanFindsStep(p: seq<byte>, o: nat, rs: seq<Record>)
    requires rs != [] && Straight(rs) && rs[0].Valid() && At(p, o, rs[0].Bytes())
    requires rs[0].IsAddress() || ScanFinds(p, o + |rs[0].Bytes()|, rs[1..])
    ensures ScanFinds(p, o, rs)
  {
    AddressStep(rs);
    RecordScanned(p, o, rs[0], |rs|);
    hide AllValid, At, ScanAnswers, AddressIn, Straight, Record.IsAddress, Record.Bytes, Record.Valid;
  }

  lemma {:induction false} AnswersScanned(p: seq<byte>, o: nat, rs: seq<Record>)
    requires AllValid(rs) && At(p, o, AnswerBytes(rs)) && Straight(rs)
    ensures ScanFinds(p, o, rs)
    decreases |rs|
  {
    if rs != [] {
      hide *;
      AnswersFollow(p, o, rs);
      AddressStep(rs);
      if !rs[0].IsAddress() {
        AnswersScanned(p, o + |rs[0].Bytes()|, rs[1..]);
      }
      ScanFindsStep(p, o, rs);
    }
  }

  lemma InARow(h: seq<byte>, q: seq<byte>, a: seq<byte>, rest: seq<byte>)
    ensures var p := h + (q + (a + rest));
      p[..|h|] == h && At(p, |h|, q) && At(p, |h| + |q|, a)
  {
    var p := h + (q + (a + rest));
    assert p[..|h|] == h;
    assert At(p, |h|, q + (a + rest));
    AtParts(p, |h|, q, a + rest);
    AtParts(p, |h| + |q|, a, rest);
  }

  /** Where the sections of a response are. */
  lemma Sections(r: Response)
    requires r.Valid()
    ensures |r.Bytes()| >= HEADER_SIZE && r.Bytes()[..HEADER_SIZE] == r.Header()
    ensures At(r.Bytes(), HEADER_SIZE, QuestionBytes(r.questions))
    ensures At(r.Bytes(), HEADER_SIZE + |QuestionBytes(r.questions)|, AnswerBytes(r.answers))
  {
    hide QuestionBytes, AnswerBytes, Response.Header, At;
    InARow(r.Header(), QuestionBytes(r.questions), AnswerBytes(r.answers), r.rest);
  }

  /** The answers of a response are scanned where they start, as many as there are. */
  lemma ScanReachesAnswers(r: Response)
    requires r.Valid()
    ensures Scan(r.Bytes()) == ScanAnswers(r.Bytes(), HEADER_SIZE + |QuestionBytes(r.questions)|, |r.answers|)
  {
    hide Be16, Bytes16, AnswerBytes, QuestionBytes, Response.Bytes, Response.Header, SkipQuestions,
      ScanAnswers, AllValid, At;
    var p := r.Bytes();
    Sections(r);
    HeaderFields(r);
    QuestionsSkipped(p, HEADER_SIZE, r.questions);
    FieldsOf(p);
  }

  /**
   A response without error is scanned for exactly its first address record, provided that
   record and all before it have four bytes of data.
   */
  lemma FirstAddressFound(r: Response)
    requires r.Valid() && Straight(r.answers)
    ensures Scan(r.Bytes()) == AddressIn(r.answers)
    ensures |r.Bytes()| >= 12 && Be16(r.Bytes()[0], r.Bytes()[1]) == r.id
  {
    hide Be16, Bytes16, AnswerBytes, QuestionBytes, Response.Bytes, Response.Header, Scan,
      ScanAnswers, Straight, AddressIn, AllValid, At;
    Sections(r);
    HeaderFields(r);
    FieldsOf(r.Bytes());
    ScanReachesAnswers(r);
    AnswersScanned(r.Bytes(), HEADER_SIZE + |QuestionBytes(r.questions)|, r.answers);
  }

  lemma FieldsOf(p: seq<byte>)
    requires |p| >= HEADER_SIZE
    ensures forall i | 0 <= i < HEADER_SIZE :: p[i] == p[..HEADER_SIZE][i]
  {
  }

  lemma HeaderFields(r: Response)
    requires |r.questions| < U16 && |r.answers| < U16
    ensures var p := r.Header();
      && Be16(p[0], p[1]) == r.id && p[2] == r.flags && p[3] == r.code
      && Be16(p[4], p[5]) == |r.questions| && Be16(p[6], p[7]) == |r.answers|
  {
    Framing.Be16RoundTrip(r.id);
    Framing.Be16RoundTrip(|r.questions|);
    Framing.Be16RoundTrip(|r.answers|);
  }

  /** The header of such a response, as section 4.1.1 of RFC 1035 lays it out. */
  lemma ResponseLayout(r: Response)
    requires r.Valid()
    ensures var p := r.Bytes();
      && |p| >= 12 && p[0] as int * 256 + p[1] as int == r.id
      && p[2] >= 0x80 && p[3] % 16 == 0
      && p[4] as int * 256 + p[5] as int == |r.questions|
      && p[6] as int * 256 + p[7] as int == |r.answers|
      && p[8] as int * 256 + p[9] as int == r.authorities
      && p[10] as int * 256 + p[11] as int == r.additionals
  {
    hide QuestionBytes, AnswerBytes, AllValid;
    Sections(r);
    FieldsOf(r.Bytes());
  }

  /** A packet that is no response, or says there was an error, is left alone, whatever follows. */
  lemma ErrorsIgnored(p: seq<byte>, now: u64)
    requires |p| >= 4 && (p[2] < 128 || p[3] % 16 != 0)
    ensures Safe(p) && Scan(p) == Ignored && OpsOf(p, now) == []
  {
  }

  /** So is one of more than 256 bytes. */
  lemma LongIgnored(p: seq<byte>, now: u64)
    requires |p| > 256
    ensures Safe(p) && OpsOf(p, now) == []
  {
  }

  /** Hence such a response has its first address, and nothing else, put in the cache under its id. */
  lemma ResponseStored(r: Response, now: u64)
    requires r.Valid() && Straight(r.answers) && |r.Bytes()| <= 256
    ensures Safe(r.Bytes())
    ensures OpsOf(r.Bytes(), now) == match AddressIn(r.answers)
      case Found(ip, ttl) => [Store(now, r.id, ip, ExpiryOf(now, ttl))]
      case _ => []
  {
    FirstAddressFound(r);
    AddressInNoOverrun(r.answers);
    hide Scan, Response.Bytes, Response.Valid, Straight, AddressIn, Be16;
  }

  lemma {:induction false} AddressInNoOverrun(rs: seq<Record>)
    ensures !AddressIn(rs).Overrun?
    decreases |rs|
  {
    if rs != [] {
      AddressInNoOverrun(rs[1..]);
    }
  }

  // ---- What misleads the scan ----

  /** An alias with any target, and the address record behind it, both named by a pointer. */
  function AliasThenAddress(pointer: nat, target: seq<byte>, aliasTtl: u32, ip: Ipv4, ttl: u32): seq<Record> {
    var name := Name([], Some(pointer));
    [Record(name, TYPE_CNAME, CLASS_IN, aliasTtl, target), Record(name, TYPE_A, CLASS_IN, ttl, ip)]
  }

  /** Behind an alias with any data the scan goes on sixteen bytes from where the alias began. */
  lemma AliasPassed(p: seq<byte>, o: nat, first: Record, n: nat)
    requires first.Valid() && !first.IsAddress() && |first.name.Bytes()| == 2
    requires At(p, o, first.Bytes()) && n > 0
    ensures ScanAnswers(p, o, n) == ScanAnswers(p, o + 16, n - 1)
  {
    hide Be32, Name.Bytes, Record.Body, At, AnswerNameEnd;
    AtParts(p, o, first.name.Bytes(), first.Body());
    AnswerNameSkipped(p, o, first.name);
    RecordFields(p, o + 1, first);
  }

  /** There it finds the address record's type, taking its high byte for the end of a name. */
  lemma TypeTakenForName(p: seq<byte>, o: nat, second: Record)
    requires second.Valid() && second.rtype == TYPE_A && |second.name.Bytes()| == 2
    requires At(p, o, second.Bytes()) && |second.data| == 4
    ensures ScanAnswers(p, o + 2, 1) == Ignored
  {
    hide Be32, Name.Bytes, Record.Body, At;
    var body := second.Body();
    AtParts(p, o, second.name.Bytes(), body);
    AtEnds(p, o + 2, body);
    BodyParts(second);
    AtByte(p, o + 2, body, 0);
    AtByte(p, o + 2, body, 1);
    AtByte(p, o + 2, body, 2);
  }

  lemma TwoAnswers(first: Record, second: Record)
    requires first.Valid() && second.Valid() && !first.IsAddress()
    ensures AllValid([first, second]) && AnswerBytes([first, second]) == first.Bytes() + (second.Bytes() + [])
    ensures AddressIn([first, second]) == AddressIn([second])
    ensures second.IsAddress() && |second.data| == 4 ==> AddressIn([second]) == Found(second.data, second.ttl)
  {
    hide Record.Bytes;
    assert [first, second][1..] == [second];
    assert AnswerBytes([second]) == second.Bytes() + AnswerBytes([]);
  }

  /** A response of an alias and an address is scanned from sixteen bytes behind the start of the alias. */
  lemma AliasScanned(r: Response, pointer: nat, target: seq<byte>, aliasTtl: u32, ip: Ipv4, ttl: u32)
    requires r.Valid() && pointer < 0x4000 && |target| < U16
    requires r.answers == AliasThenAddress(pointer, target, aliasTtl, ip, ttl)
    ensures AddressIn(r.answers) == Found(ip, ttl)
    ensures Scan(r.Bytes()) == ScanAnswers(r.Bytes(), HEADER_SIZE + |QuestionBytes(r.questions)| + 16, 1)
  {
    hide *;
    AliasIs(pointer, target, aliasTtl, ip, ttl);
    var first, second := r.answers[0], r.answers[1];
    TwoAnswers(first, second);
    ScanReachesAnswers(r);
    AliasSections(r, first, second);
    AliasPassed(r.Bytes(), HEADER_SIZE + |QuestionBytes(r.questions)|, first, 2);
  }

  lemma AliasIs(pointer: nat, target: seq<byte>, aliasTtl: u32, ip: Ipv4, ttl: u32)
    requires pointer < 0x4000 && |target| < U16
    ensures var rs := AliasThenAddress(pointer, target, aliasTtl, ip, ttl);
      && |rs| == 2 && rs == [rs[0], rs[1]] && rs[0].Valid() && rs[1].Valid()
      && !rs[0].IsAddress() && rs[0].name.labels == [] && rs[0].name.pointer.Some? && |rs[0].name.Bytes()| == 2
      && rs[1].IsAddress() && rs[1].data == ip && rs[1].ttl == ttl
  {
  }

  /**
   The scan advances as if every answer had four bytes of data, so the usual response for an
   alias with a two-byte target is scanned in vain: its address is there and never found.
   */
  lemma AliasHidesAddress(r: Response, pointer: nat, target: seq<byte>, aliasTtl: u32, ip: Ipv4, ttl: u32)
    requires r.Valid() && pointer < 0x4000 && |target| == 2
    requires r.answers == AliasThenAddress(pointer, target, aliasTtl, ip, ttl)
    ensures AddressIn(r.answers) == Found(ip, ttl)
    ensures Scan(r.Bytes()) == Ignored
  {
    AliasScanned(r, pointer, target, aliasTtl, ip, ttl);
    AliasSections(r, r.answers[0], r.answers[1]);
    hide ScanAnswers, AddressIn, Scan, Response.Bytes, QuestionBytes, At;
    TypeTakenForName(r.Bytes(), HEADER_SIZE + |QuestionBytes(r.questions)| + 14, r.answers[1]);
  }

  lemma AliasSections(r: Response, first: Record, second: Record)
    requires r.Valid() && r.answers == [first, second]
    requires !first.IsAddress() && first.name.labels == [] && first.name.pointer.Some?
    ensures var o := HEADER_SIZE + |QuestionBytes(r.questions)|;
      && At(r.Bytes(), o, first.Bytes()) && At(r.Bytes(), o + 12 + |first.data|, second.Bytes())
      && |r.Bytes()| == o + |first.Bytes()| + |second.Bytes()| + |r.rest|
  {
    assert first.Valid() && second.Valid();
    assert |first.Bytes()| == 12 + |first.data|;
    var a, b := first.Bytes(), second.Bytes();
    hide QuestionBytes, Response.Bytes, Response.Header, At, Record.Bytes, Record.IsAddress, Name.Bytes,
      Name.Valid, AllValid;
    TwoAnswers(first, second);
    hide AnswerBytes;
    var p, o := r.Bytes(), HEADER_SIZE + |QuestionBytes(r.questions)|;
    Sections(r);
    ResponseLength(r);
    AtParts(p, o, a, b + []);
    AtParts(p, o + |a|, b, []);
  }

  lemma ResponseLength(r: Response)
    requires r.Valid()
    ensures |r.Bytes()| == HEADER_SIZE + |QuestionBytes(r.questions)| + |AnswerBytes(r.answers)| + |r.rest|
  {
  }

  /** An alias whose `n` bytes of data hide the address behind it. */
  function HidingAlias(n: nat): seq<Record> {
    AliasThenAddress(0x3F, ZeroBytes(n), 0, [9, 9, 9, 9], 0)
  }

  const HIDDEN := Record(Name([], Some(0x3F)), TYPE_A, CLASS_IN, 0, [9, 9, 9, 9])

  lemma HiddenBytes()
    ensures HIDDEN.Valid() && HIDDEN.Bytes() == [0xC0, 0x3F, 0, 1, 0, 1, 0, 0, 0, 0, 0, 4, 9, 9, 9, 9]
  {
    assert HIDDEN.name.Bytes() == [] + [0xC0, 0x3F];
  }

  lemma NameStep(p: seq<byte>, o: nat)
    requires o < |p|
    ensures AnswerNameEnd(p, o)
         == if p[o] == 0 then Some(o) else if p[o] >= 64 then Some(o + 1) else AnswerNameEnd(p, o + p[o] + 1)
    ensures QuestionNameEnd(p, o)
         == if p[o] == 0 then Some(o) else if p[o] >= 64 then QuestionNameEnd(p, o + 2)
            else QuestionNameEnd(p, o + p[o] + 1)
  {
  }

  lemma ScanMisses(p: seq<byte>, o: nat, e: nat)
    requires AnswerNameEnd(p, o) == Some(e) && e + 2 < |p| && Be16(p[e + 1], p[e + 2]) != TYPE_A
    ensures !ScanAnswers(p, o, 1).Found?
  {
    hide AnswerNameEnd;
  }

  lemma ScanRunsOff(p: seq<byte>, o: nat)
    requires AnswerNameEnd(p, o) == None
    ensures ScanAnswers(p, o, 1) == Overrun
  {
    hide AnswerNameEnd;
  }

  /** With short data, the scan goes on inside the address record, where its own bytes pass for a name. */
  lemma LostInAddress(p: seq<byte>, o: nat, n: nat)
    requires n < 4 && At(p, o, HIDDEN.Bytes()) && |p| == o + 16
    ensures !ScanAnswers(p, o + 4 - n, 1).Found?
  {
    HiddenBytes();
    forall i | 0 <= i < 16
      ensures p[o + i] == HIDDEN.Bytes()[i]
    {
      AtByte(p, o, HIDDEN.Bytes(), i);
    }
    assert p[o + 1] == 0x3F && p[o + 2] == 0 && p[o + 3] == 1 && p[o + 4] == 0 && p[o + 5] == 1;
    assert p[o + 6] == 0 && p[o + 7] == 0 && p[o + 8] == 0 && p[o + 9] == 0;
    hide At, Record.Bytes, ScanAnswers, AnswerNameEnd;
    match n
    case 0 =>
      NameStep(p, o + 4);
      ScanMisses(p, o + 4, o + 4);
    case 1 =>
      NameStep(p, o + 3);
      NameStep(p, o + 5);
      NameStep(p, o + 7);
      ScanMisses(p, o + 3, o + 7);
    case 2 =>
      NameStep(p, o + 2);
      ScanMisses(p, o + 2, o + 2);
    case 3 =>
      NameStep(p, o + 1);
      NoNameBehind(p, o + 65);
      ScanRunsOff(p, o + 1);
  }

  lemma NoNameBehind(p: seq<byte>, o: nat)
    requires o >= |p|
    ensures AnswerNameEnd(p, o) == None
  {
  }

  /** With long data, the scan goes on in the data, where a zero passes for the end of a name. */
  lemma LostInAlias(p: seq<byte>, o: nat, n: nat)
    requires n > 4 && At(p, o, ZeroBytes(n)) && At(p, o + n, HIDDEN.Bytes())
    ensures !ScanAnswers(p, o + 4, 1).Found?
  {
    hide *;
    HiddenBytes();
    NthByte(p, o, n, 4);
    NthByte(p, o, n, 5);
    NthByte(p, o, n, 6);
    NameStep(p, o + 4);
    NotTypeA(p[o + 5], p[o + 6]);
    ScanMisses(p, o + 4, o + 4);
  }

  lemma NthByte(p: seq<byte>, o: nat, n: nat, i: nat)
    requires n > 4 && 4 <= i < 7 && At(p, o, ZeroBytes(n)) && At(p, o + n, HIDDEN.Bytes())
    ensures o + i < |p| && p[o + i] == if i < n then 0 else if i == n then 0xC0 else 0x3F
  {
    hide *;
    HiddenBytes();
    AtEnds(p, o + n, HIDDEN.Bytes());
    if i < n {
      AtByte(p, o, ZeroBytes(n), i);
    } else {
      AtByte(p, o + n, HIDDEN.Bytes(), i - n);
    }
  }

  lemma NotTypeA(high: byte, low: byte)
    requires high == 0xC0 || low == 0xC0 || low == 0
    ensures Be16(high, low) != TYPE_A
  {
  }

  lemma AddressHidden(r: Response, n: nat)
    requires r.Valid() && n < U16 && n != 4 && r.answers == HidingAlias(n) && r.rest == []
    ensures AddressIn(r.answers) == Found([9, 9, 9, 9], 0)
    ensures !Scan(r.Bytes()).Found?
  {
    hide *;
    HidingIs(n);
    var p, o, first := r.Bytes(), HEADER_SIZE + |QuestionBytes(r.questions)|, r.answers[0];
    AliasScanned(r, 0x3F, ZeroBytes(n), 0, [9, 9, 9, 9], 0);
    AliasSections(r, first, HIDDEN);
    HiddenBytes();
    AliasData(p, o, first);
    if n < 4 {
      LostInAddress(p, o + 12 + n, n);
    } else {
      LostInAlias(p, o + 12, n);
    }
  }

  lemma HidingIs(n: nat)
    requires n < U16
    ensures var rs := HidingAlias(n);
      && rs == AliasThenAddress(0x3F, ZeroBytes(n), 0, [9, 9, 9, 9], 0) && rs == [rs[0], HIDDEN]
      && rs[0].Valid() && !rs[0].IsAddress() && rs[0].name.labels == [] && rs[0].name.pointer.Some?
      && |rs[0].name.Bytes()| == 2 && rs[0].data == ZeroBytes(n) && AllValid(rs)
  {
  }

  lemma AliasData(p: seq<byte>, o: nat, r: Record)
    requires r.Valid() && |r.name.Bytes()| == 2 && At(p, o, r.Bytes())
    ensures |r.Bytes()| == 12 + |r.data| && At(p, o + 12, r.data)
  {
    var front := Bytes16(r.rtype) + Bytes16(r.rclass) + Bytes32(r.ttl) + Bytes16(|r.data|);
    assert r.Body() == front + r.data;
    hide At, Name.Bytes, Bytes16, Bytes32;
    AtParts(p, o, r.name.Bytes(), r.Body());
    AtParts(p, o + 2, front, r.data);
  }

  /** Whatever an alias of `n` bytes of data and the address behind it hold, that address is found. */
  ghost predicate AliasHarmless(n: nat) {
    forall r: Response, pointer: nat, target: seq<byte>, aliasTtl: u32, ip: Ipv4, ttl: u32 ::
      (r.Valid() && pointer < 0x4000 && |target| == n
       && r.answers == AliasThenAddress(pointer, target, aliasTtl, ip, ttl))
      ==> Scan(r.Bytes()) == Found(ip, ttl)
  }

  /** The address behind an alias is sure to be found exactly if the alias has four bytes of data. */
  lemma AliasHarmlessIffFour(n: nat)
    requires n < U16
    ensures AliasHarmless(n) <==> n == 4
  {
    hide Scan, Response.Bytes, AddressIn;
    if n == 4 {
      forall r: Response, pointer: nat, target: seq<byte>, aliasTtl: u32, ip: Ipv4, ttl: u32 |
        r.Valid() && pointer < 0x4000 && |target| == n
        && r.answers == AliasThenAddress(pointer, target, aliasTtl, ip, ttl)
        ensures Scan(r.Bytes()) == Found(ip, ttl)
      {
        AliasScanned(r, pointer, target, aliasTtl, ip, ttl);
        AliasStraight(pointer, target, aliasTtl, ip, ttl);
        FirstAddressFound(r);
      }
    } else {
      var r := Response(0, 0x80, 0, [], HidingAlias(n), 0, 0, []);
      AddressHidden(r, n);
    }
  }

  lemma AliasStraight(pointer: nat, target: seq<byte>, aliasTtl: u32, ip: Ipv4, ttl: u32)
    requires |target| == 4
    ensures Straight(AliasThenAddress(pointer, target, aliasTtl, ip, ttl))
  {
    var rs := AliasThenAddress(pointer, target, aliasTtl, ip, ttl);
    assert rs[1..] == [rs[1]];
  }

  // ---- The query as a message ----

  function QuestionSent(hostname: seq<byte>): Question {
    Question(Split(hostname), TYPE_A, CLASS_IN)
  }

  /** A query is a header and one question. */
  lemma QueryLayout(id: u16, hostname: seq<byte>)
    ensures var p, q := QuerySent(id, hostname), QuestionSent(hostname).Bytes();
      p == HeaderSent(id) + q && p[HEADER_SIZE..] == q && At(p, HEADER_SIZE, q)
  {
    var name := Emitted(Split(hostname)).0;
    hide Split, Emitted, HeaderSent, Bytes16;
    assert name + QUERY_TAIL == name + [0] + (Bytes16(TYPE_A) + Bytes16(CLASS_IN));
    Associates(HeaderSent(id), name, QUERY_TAIL);
  }

  lemma QuestionIs(hostname: seq<byte>)
    requires AllProper(Split(hostname))
    ensures QuestionSent(hostname).Bytes() == NameSent(hostname) + (Bytes16(TYPE_A) + Bytes16(CLASS_IN))
    ensures |QuestionSent(hostname).Bytes()| == |hostname| + 6
  {
    hide Split, Emitted, AllProper, Bytes16;
    ProperAreEmitted(Split(hostname));
    NameLength(hostname);
  }

  /**
   The header of a query: the id, a standard query with recursion desired, one question and no
   records; whatever the host name.
   */
  lemma QueryHeader(id: u16, hostname: seq<byte>)
    ensures var p := QuerySent(id, hostname);
      && |p| >= 12 && p[0] as int * 256 + p[1] as int == id
      && p[2..12] == [1, 0, 0, 1, 0, 0, 0, 0, 0, 0]
  {
    var h := HeaderSent(id);
    assert h[2..] == [1, 0, 0, 1, 0, 0, 0, 0, 0, 0];
    hide HeaderSent, Emitted, Split;
    var p := QuerySent(id, hostname);
    assert p[..12] == h;
    assert p[2..12] == h[2..];
    assert p[0] == h[0] && p[1] == h[1];
  }

  /**
   A query with proper labels carries its id and one question behind the header. The question
   starts at byte 12, decodes to the labels of the host name followed by type A and class IN, and
   is skipped to its very end.
   */
  lemma QueryParses(id: u16, hostname: seq<byte>)
    requires AllProper(Split(hostname))
    ensures var p := QuerySent(id, hostname);
      && |p| == |hostname| + 18
      && p[0] as int * 256 + p[1] as int == id && p[2..12] == [1, 0, 0, 1, 0, 0, 0, 0, 0, 0]
      && DecodeName(p[12..]) == Some((Split(hostname), [0, 1, 0, 1]))
      && QuestionNameEnd(p, 12) == Some(|hostname| + 13)
      && SkipQuestions(p, 12, 1) == Some(|hostname| + 18)
  {
    QueryHeader(id, hostname);
    assert Bytes16(TYPE_A) + Bytes16(CLASS_IN) == [0, 1, 0, 1];
    assert QuestionSent(hostname).labels == Split(hostname);
    hide Split, Emitted, DecodeName, AllProper, QuestionNameEnd, QuerySent, QuestionSent, Question.Bytes, At, NameSent;
    QueryLayout(id, hostname);
    QuestionIs(hostname);
    ProperAreEmitted(Split(hostname));
    NameRoundTrip(hostname, Bytes16(TYPE_A) + Bytes16(CLASS_IN));
    QuestionSkipped(QuerySent(id, hostname), HEADER_SIZE, QuestionSent(hostname));
  }

  /** The lifetime in milliseconds survives 32 bits exactly up to 4294967 seconds, and wraps beyond. */
  lemma LifetimeFits(now: u64, ttl: u32)
    requires now + U32 <= U64
    ensures ExpiryOf(now, ttl) == now + 1000 * ttl <==> ttl <= 4294967
    ensures ExpiryOf(now, ttl) < now + U32 && (ExpiryOf(now, ttl) - now - 1000 * ttl) % U32 == 0
  {
  }
}

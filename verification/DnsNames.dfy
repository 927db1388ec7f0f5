/** Domain names: the encoder of a query, the decoding RFC 1035 prescribes, and the skipping of names in a response. */
module DnsNames {
  import opened Words

  const DOT: byte := 46
  /** Longest label whose length the encoder can write in a byte, and the longest RFC 1035 allows. */
  const LENGTH_LIMIT: nat := 255
  const LABEL_LIMIT: nat := 63

  datatype Option<T> = None | Some(value: T)

  // ---- Labels ----

  /** The first dot from `i` on, or the end. */
  function NextDot(hostname: seq<byte>, i: nat): (k: nat)
    requires i <= |hostname|
    ensures i <= k <= |hostname|
    ensures k < |hostname| ==> hostname[k] == DOT
    ensures forall j | i <= j < k :: hostname[j] != DOT
    decreases |hostname| - i
  {
    if i == |hostname| || hostname[i] == DOT then i else NextDot(hostname, i + 1)
  }

  /** The labels from `i` on: what lies between the dots. */
  function Labels(hostname: seq<byte>, i: nat): (ls: seq<seq<byte>>)
    requires i <= |hostname|
    ensures ls != []
    decreases |hostname| - i
  {
    var k := NextDot(hostname, i);
    [hostname[i..k]] + if k == |hostname| then [] else Labels(hostname, k + 1)
  }

  function Split(hostname: seq<byte>): seq<seq<byte>> {
    Labels(hostname, 0)
  }

  function Join(labels: seq<seq<byte>>): seq<byte> {
    if labels == [] then [] else
    if |labels| == 1 then labels[0] else labels[0] + [46] + Join(labels[1..])
  }

  lemma CutAtDot(hostname: seq<byte>, i: nat, k: nat)
    requires i <= k < |hostname| && hostname[k] == DOT
    ensures hostname[i..] == hostname[i..k] + [DOT] + hostname[k + 1..]
  {
  }

  lemma JoinTwo(first: seq<byte>, rest: seq<seq<byte>>)
    requires rest != []
    ensures Join([first] + rest) == first + [DOT] + Join(rest)
  {
    assert ([first] + rest)[1..] == rest;
  }

  lemma FirstLabel(hostname: seq<byte>, i: nat)
    requires i <= |hostname|
    ensures var k := NextDot(hostname, i);
      Labels(hostname, i) == [hostname[i..k]] + if k == |hostname| then [] else Labels(hostname, k + 1)
  {
  }

  lemma JoinAtDot(hostname: seq<byte>, i: nat, k: nat)
    requires i <= k < |hostname| && k == NextDot(hostname, i)
    requires Join(Labels(hostname, k + 1)) == hostname[k + 1..]
    ensures Join(Labels(hostname, i)) == hostname[i..]
  {
    FirstLabel(hostname, i);
    JoinTwo(hostname[i..k], Labels(hostname, k + 1));
    CutAtDot(hostname, i, k);
    hide *;
  }

  lemma JoinAtEnd(hostname: seq<byte>, i: nat)
    requires i <= |hostname| == NextDot(hostname, i)
    ensures Join(Labels(hostname, i)) == hostname[i..]
  {
    FirstLabel(hostname, i);
    hide Labels, NextDot;
    assert hostname[i..|hostname|] == hostname[i..];
    assert Join([hostname[i..]]) == hostname[i..];
  }

  lemma {:induction false} JoinLabels(hostname: seq<byte>, i: nat)
    requires i <= |hostname|
    ensures Join(Labels(hostname, i)) == hostname[i..]
    decreases |hostname| - i
  {
    hide Labels, Join, NextDot;
    var k := NextDot(hostname, i);
    if k == |hostname| {
      JoinAtEnd(hostname, i);
    } else {
      JoinLabels(hostname, k + 1);
      JoinAtDot(hostname, i, k);
    }
  }

  lemma {:induction false} LabelsFreeOfDots(hostname: seq<byte>, i: nat)
    requires i <= |hostname|
    ensures forall l | l in Labels(hostname, i) :: DOT !in l
    decreases |hostname| - i
  {
    var k := NextDot(hostname, i);
    if k < |hostname| {
      LabelsFreeOfDots(hostname, k + 1);
      var ls, rest := Labels(hostname, i), Labels(hostname, k + 1);
      assert ls == [hostname[i..k]] + rest;
    }
  }

  /** The labels, joined by dots and themselves free of dots, are the host name. */
  lemma SplitJoins(hostname: seq<byte>)
    ensures Join(Split(hostname)) == hostname
    ensures forall l | l in Split(hostname) :: 46 !in l
  {
    JoinLabels(hostname, 0);
    LabelsFreeOfDots(hostname, 0);
  }

  // ---- Encoding ----

  /** The bytes written for a list of labels before the first that is too long, and whether none is. */
  function Emitted(labels: seq<seq<byte>>): (r: (seq<byte>, bool)) {
    if labels == [] then ([], true)
    else if |labels[0]| > LENGTH_LIMIT then ([], false)
    else
      var rest := Emitted(labels[1..]);
      ([|labels[0]|] + labels[0] + rest.0, rest.1)
  }

  function NameSent(hostname: seq<byte>): seq<byte> {
    Emitted(Split(hostname)).0 + [0]
  }

  lemma {:induction false} EmittedAll(labels: seq<seq<byte>>)
    ensures Emitted(labels).1 <==> forall l | l in labels :: |l| <= 255
    decreases |labels|
  {
    if labels != [] {
      EmittedAll(labels[1..]);
      assert labels == [labels[0]] + labels[1..];
    }
  }

  lemma EmittedFirst(l: seq<byte>, rest: seq<seq<byte>>)
    ensures Emitted([l] + rest)
      == if |l| > LENGTH_LIMIT then ([], false) else ([|l|] + l + Emitted(rest).0, Emitted(rest).1)
  {
    assert ([l] + rest)[1..] == rest;
  }

  lemma {:induction false} EmittedLength(hostname: seq<byte>, i: nat)
    requires i <= |hostname|
    ensures |Emitted(Labels(hostname, i)).0| <= |hostname| - i + 1
    ensures Emitted(Labels(hostname, i)).1 ==> |Emitted(Labels(hostname, i)).0| == |hostname| - i + 1
    decreases |hostname| - i
  {
    var k := NextDot(hostname, i);
    FirstLabel(hostname, i);
    assert Emitted([]) == ([], true);
    hide Labels, NextDot, Emitted;
    EmittedFirst(hostname[i..k], if k == |hostname| then [] else Labels(hostname, k + 1));
    if k < |hostname| {
      EmittedLength(hostname, k + 1);
    }
  }

  /** Two bytes more than the host name has. */
  lemma NameLength(hostname: seq<byte>)
    requires Emitted(Split(hostname)).1
    ensures |NameSent(hostname)| == |hostname| + 2
  {
    EmittedLength(hostname, 0);
  }

  // ---- Decoding (RFC 1035, section 3.1) ----

  predicate Proper(l: seq<byte>) {
    1 <= |l| <= 63
  }

  ghost predicate AllProper(labels: seq<seq<byte>>) {
    forall l | l in labels :: Proper(l)
  }

  /** A name without compression in front of `p`: its labels, and what follows it. */
  function DecodeName(p: seq<byte>): Option<(seq<seq<byte>>, seq<byte>)> {
    if p == [] then None
    else if p[0] == 0 then Some(([], p[1..]))
    else if p[0] > 63 || |p| < 1 + p[0] as int then None
    else match DecodeName(p[1 + p[0] as int..])
      case None => None
      case Some(r) => Some(([p[1..1 + p[0] as int]] + r.0, r.1))
  }

  lemma {:induction false} DecodeEmitted(labels: seq<seq<byte>>, rest: seq<byte>)
    requires Emitted(labels).1
    ensures DecodeName(Emitted(labels).0 + [0] + rest) == Some((labels, rest)) <==> AllProper(labels)
    decreases |labels|
  {
    var p := Emitted(labels).0 + [0] + rest;
    if labels == [] {
      assert p[1..] == rest;
    } else {
      var l, tail := labels[0], Emitted(labels[1..]).0 + [0] + rest;
      assert p == [|l|] + l + tail;
      DecodeEmitted(labels[1..], rest);
      assert labels == [l] + labels[1..];
      if Proper(l) {
        assert p[1..1 + |l|] == l && p[1 + |l|..] == tail;
      } else {
        assert l in labels;
      }
    }
  }

  /**
   What a query writes for a host name decodes to the labels between its dots, whatever follows,
   if and only if each of them has 1 to 63 bytes.
   */
  lemma NameRoundTrip(hostname: seq<byte>, rest: seq<byte>)
    requires Emitted(Split(hostname)).1
    ensures DecodeName(NameSent(hostname) + rest) == Some((Split(hostname), rest)) <==> AllProper(Split(hostname))
  {
    DecodeEmitted(Split(hostname), rest);
  }

  // ---- Skipping ----

  /** From a length byte at `o` to the terminator of a question name, if the packet has one. */
  function QuestionNameEnd(p: seq<byte>, o: nat): (e: Option<nat>)
    ensures e.Some? ==> o <= e.value < |p| && p[e.value] == 0
    decreases |p| - o
  {
    if o >= |p| then None
    else if p[o] == 0 then Some(o)
    else if p[o] > LABEL_LIMIT then QuestionNameEnd(p, o + 2)
    else QuestionNameEnd(p, o + p[o] + 1)
  }

  /** Likewise in an answer, where a pointer ends the name. */
  function AnswerNameEnd(p: seq<byte>, o: nat): (e: Option<nat>)
    ensures e.Some? ==> o <= e.value <= |p|
    decreases |p| - o
  {
    if o >= |p| then None
    else if p[o] == 0 then Some(o)
    else if p[o] > LABEL_LIMIT then Some(o + 1)
    else AnswerNameEnd(p, o + p[o] + 1)
  }

  lemma LabelSkipped(p: seq<byte>, o: nat, l: seq<byte>)
    requires Proper(l) && o < |p| && p[o] == |l|
    ensures QuestionNameEnd(p, o) == QuestionNameEnd(p, o + 1 + |l|)
    ensures AnswerNameEnd(p, o) == AnswerNameEnd(p, o + 1 + |l|)
  {
  }

  lemma FirstEmitted(p: seq<byte>, o: nat, labels: seq<seq<byte>>)
    requires labels != [] && Proper(labels[0]) && At(p, o, Emitted(labels).0)
    ensures o < |p| && p[o] == |labels[0]| && At(p, o + 1 + |labels[0]|, Emitted(labels[1..]).0)
    ensures |Emitted(labels).0| == 1 + |labels[0]| + |Emitted(labels[1..]).0|
  {
    var l, rest := labels[0], Emitted(labels[1..]).0;
    var head: seq<byte> := [|l|] + l;
    assert Emitted(labels).0 == head + rest;
    hide Emitted;
    AtParts(p, o, head, rest);
    AtByte(p, o, head, 0);
    AtEnds(p, o, head);
  }

  /** Both scans pass over the labels of an encoded name. */
  lemma {:induction false} SkipEmitted(p: seq<byte>, o: nat, labels: seq<seq<byte>>)
    requires AllProper(labels) && At(p, o, Emitted(labels).0)
    ensures QuestionNameEnd(p, o) == QuestionNameEnd(p, o + |Emitted(labels).0|)
    ensures AnswerNameEnd(p, o) == AnswerNameEnd(p, o + |Emitted(labels).0|)
    decreases |labels|
  {
    if labels == [] {
      assert Emitted(labels).0 == [];
    } else {
      hide At, QuestionNameEnd, AnswerNameEnd, Proper, Emitted;
      FirstEmitted(p, o, labels);
      LabelSkipped(p, o, labels[0]);
      SkipEmitted(p, o + 1 + |labels[0]|, labels[1..]);
    }
  }
}

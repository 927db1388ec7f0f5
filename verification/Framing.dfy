/** UDP framing in the receive stream: an 8-byte header in front of every datagram. */
module Framing {
  import opened Words

  const HEADER: nat := 8

  datatype Datagram = Datagram(ip: seq<byte>, port: u16, payload: seq<byte>) {
    ghost predicate Valid() {
      |ip| == 4 && |payload| < U16
    }
  }

  ghost predicate AllValid(ds: seq<Datagram>) {
    forall d | d in ds :: d.Valid()
  }

  /** Sender address, sender port and payload length, as the chip writes them. */
  function Header(d: Datagram): (h: seq<byte>)
    requires d.Valid()
    ensures |h| == 8
  {
    d.ip + Bytes16(d.port) + Bytes16(|d.payload|)
  }

  /** The header, byte by byte. */
  lemma HeaderBytes(d: Datagram)
    requires d.Valid()
    ensures Header(d)[..4] == d.ip
    ensures Header(d)[4] as int * 256 + Header(d)[5] as int == d.port
    ensures Header(d)[6] as int * 256 + Header(d)[7] as int == |d.payload|
  {
    Be16RoundTrip(d.port);
    Be16RoundTrip(|d.payload|);
  }

  function Frame(d: Datagram): seq<byte>
    requires d.Valid()
  {
    Header(d) + d.payload
  }

  /** The receive stream after the datagrams `ds`. */
  function Flatten(ds: seq<Datagram>): seq<byte>
    requires AllValid(ds)
  {
    if ds == [] then [] else Flatten(ds[..|ds| - 1]) + Frame(ds[|ds| - 1])
  }

  /** Where datagram `k` starts in the stream. */
  function Boundary(ds: seq<Datagram>, k: nat): nat
    requires k <= |ds|
  {
    if k == 0 then 0 else Boundary(ds, k - 1) + HEADER + |ds[k - 1].payload|
  }

  lemma {:induction false} BoundaryOfPrefix(ds: seq<Datagram>, n: nat, k: nat)
    requires k <= n <= |ds|
    ensures Boundary(ds[..n], k) == Boundary(ds, k)
    decreases k
  {
    if k > 0 {
      BoundaryOfPrefix(ds, n, k - 1);
    }
  }

  lemma {:induction false} BoundaryMonotone(ds: seq<Datagram>, j: nat, k: nat)
    requires j <= k <= |ds|
    ensures Boundary(ds, j) + HEADER * (k - j) <= Boundary(ds, k)
    decreases k
  {
    if j < k {
      BoundaryMonotone(ds, j, k - 1);
    }
  }

  lemma {:induction false} FlattenLength(ds: seq<Datagram>)
    requires AllValid(ds)
    ensures |Flatten(ds)| == Boundary(ds, |ds|)
    decreases |ds|
  {
    if ds != [] {
      var n := |ds| - 1;
      FlattenLength(ds[..n]);
      BoundaryOfPrefix(ds, n, n);
    }
  }

  lemma {:induction false} FlattenPrefix(ds: seq<Datagram>, n: nat)
    requires AllValid(ds) && n <= |ds|
    ensures AllValid(ds[..n])
    ensures Boundary(ds, n) <= |Flatten(ds)|
    ensures Flatten(ds)[..Boundary(ds, n)] == Flatten(ds[..n])
    decreases |ds|
  {
    FlattenLength(ds);
    if n == |ds| {
      assert ds[..n] == ds;
    } else {
      var m := |ds| - 1;
      var front := ds[..m];
      FlattenPrefix(front, n);
      BoundaryOfPrefix(ds, m, n);
      assert front[..n] == ds[..n];
    }
  }

  /** Frame `k` sits between its boundaries. */
  lemma FrameAt(ds: seq<Datagram>, k: nat)
    requires AllValid(ds) && k < |ds|
    ensures Boundary(ds, k) <= Boundary(ds, k + 1) <= |Flatten(ds)|
    ensures Flatten(ds)[Boundary(ds, k)..Boundary(ds, k + 1)] == Frame(ds[k])
  {
    FlattenPrefix(ds, k);
    FlattenPrefix(ds, k + 1);
    var s, a, b := Flatten(ds), Boundary(ds, k), Boundary(ds, k + 1);
    assert ds[..k + 1][..k] == ds[..k];
    assert s[..b] == s[..a] + Frame(ds[k]);
    assert s[a..b] == s[..b][a..];
  }

  lemma HeaderAt(ds: seq<Datagram>, k: nat)
    requires AllValid(ds) && k < |ds|
    ensures Boundary(ds, k) + HEADER <= Boundary(ds, k + 1) <= |Flatten(ds)|
    ensures Flatten(ds)[Boundary(ds, k)..Boundary(ds, k) + HEADER] == Header(ds[k])
    ensures Flatten(ds)[Boundary(ds, k) + HEADER..Boundary(ds, k + 1)] == ds[k].payload
  {
    FrameAt(ds, k);
    var s, a, b := Flatten(ds), Boundary(ds, k), Boundary(ds, k + 1);
    var f := s[a..b];
    assert s[a..a + HEADER] == f[..HEADER] && s[a + HEADER..b] == f[HEADER..];
  }

  /** The last `rest` bytes of payload `k`, or the first `n` of those, in the stream. */
  lemma RestOfPayload(ds: seq<Datagram>, k: nat, start: nat, rest: nat, n: nat)
    requires AllValid(ds) && k < |ds| && n <= rest <= |ds[k].payload| && start + rest == Boundary(ds, k + 1)
    ensures start + n <= |Flatten(ds)|
    ensures Flatten(ds)[start..start + n] == ds[k].payload[|ds[k].payload| - rest..][..n]
  {
    HeaderAt(ds, k);
    var s, from, end := Flatten(ds), Boundary(ds, k) + HEADER, Boundary(ds, k + 1);
    assert end == from + |ds[k].payload|;
    hide Flatten, Boundary;
    assert s[start..start + n] == s[from..end][start - from..][..n];
  }

  // ---- Reading the stream back ----

  /** The datagrams in a stream, read as the header's length field directs. */
  function Unframe(s: seq<byte>): seq<Datagram>
    decreases |s|
  {
    if |s| < HEADER || |s| < HEADER + Be16(s[6], s[7]) then []
    else
      [Datagram(s[..4], Be16(s[4], s[5]), s[HEADER..HEADER + Be16(s[6], s[7])])]
      + Unframe(s[HEADER + Be16(s[6], s[7])..])
  }

  lemma Be16RoundTrip(v: u16)
    ensures Be16(Hi(v), Lo(v)) == v
  {
  }

  lemma UnframeOne(d: Datagram, rest: seq<byte>)
    requires d.Valid()
    ensures Unframe(Frame(d) + rest) == [d] + Unframe(rest)
  {
    var s := Frame(d) + rest;
    Be16RoundTrip(d.port);
    Be16RoundTrip(|d.payload|);
    assert s[..4] == d.ip;
    assert s[HEADER..HEADER + |d.payload|] == d.payload;
    assert s[HEADER + |d.payload|..] == rest;
  }

  lemma UnframeLast(front: seq<Datagram>, last: Datagram, rest: seq<byte>)
    requires AllValid(front) && last.Valid()
    requires Unframe(Flatten(front) + (Frame(last) + rest)) == front + Unframe(Frame(last) + rest)
    ensures Unframe(Flatten(front) + Frame(last) + rest) == front + [last] + Unframe(rest)
  {
    hide Flatten, Frame, Unframe;
    Associates(Flatten(front), Frame(last), rest);
    UnframeOne(last, rest);
    assert front + ([last] + Unframe(rest)) == front + [last] + Unframe(rest);
  }

  lemma {:induction false} UnframeFront(ds: seq<Datagram>, rest: seq<byte>)
    requires AllValid(ds)
    ensures Unframe(Flatten(ds) + rest) == ds + Unframe(rest)
    decreases |ds|
  {
    if ds == [] {
      assert Flatten(ds) + rest == rest;
    } else {
      var front, last := ds[..|ds| - 1], ds[|ds| - 1];
      assert Flatten(ds) == Flatten(front) + Frame(last) && ds == front + [last];
      hide Flatten, Frame, Unframe;
      UnframeFront(front, Frame(last) + rest);
      UnframeLast(front, last, rest);
    }
  }

  /** Any sequence of datagrams is recovered from its stream. */
  lemma UnframeRoundTrip(ds: seq<Datagram>)
    requires AllValid(ds)
    ensures Unframe(Flatten(ds)) == ds
  {
    UnframeFront(ds, []);
    assert Flatten(ds) + [] == Flatten(ds);
  }
}

/** The resumable parser of the fixed DHCP header (section 2 of RFC 2131). */
module DhcpHeader {
  import opened Words
  import opened Bitwise

  const HEADER_SIZE: nat := 34

  datatype Header = Header(op: byte, htype: byte, hlen: byte, hops: byte, xid: nat, secs: nat, flags: nat,
                           ciaddr: seq<byte>, yiaddr: seq<byte>, siaddr: seq<byte>, giaddr: seq<byte>,
                           chaddr: seq<byte>)

  const BLANK := Header(0, 0, 0, 0, 0, 0, 0, ZeroBytes(4), ZeroBytes(4), ZeroBytes(4), ZeroBytes(4), ZeroBytes(6))

  ghost predicate Shaped(h: Header) {
    |h.ciaddr| == |h.yiaddr| == |h.siaddr| == |h.giaddr| == 4 && |h.chaddr| == 6
  }

  /** What case `x` of the switch does with its byte. */
  function Absorb(h: Header, x: nat, b: byte): (r: Header)
    requires Shaped(h)
    ensures Shaped(r)
  {
    if x == 0 then h.(op := b)
    else if x == 1 then h.(htype := b)
    else if x == 2 then h.(hlen := b)
    else if x == 3 then h.(hops := b)
    else if x < 8 then h.(xid := Or(h.xid, Shl(b, 8 * (7 - x))))
    else if x < 10 then h.(secs := Or(h.secs, Shl(b, 8 * (9 - x))))
    else if x < 12 then h.(flags := Or(h.flags, Shl(b, 8 * (11 - x))))
    else if x < 16 then h.(ciaddr := h.ciaddr[x - 12 := b])
    else if x < 20 then h.(yiaddr := h.yiaddr[x - 16 := b])
    else if x < 24 then h.(siaddr := h.siaddr[x - 20 := b])
    else if x < 28 then h.(giaddr := h.giaddr[x - 24 := b])
    else if x < 34 then h.(chaddr := h.chaddr[x - 28 := b])
    else h
  }

  /** Bytes `from` up to `end` of a packet, absorbed in order. */
  function AbsorbRange(h: Header, buf: seq<byte>, from: nat, end: nat): (r: Header)
    requires Shaped(h) && from <= end <= |buf|
    ensures Shaped(r)
    decreases end
  {
    if from == end then h else Absorb(AbsorbRange(h, buf, from, end - 1), end - 1, buf[end - 1])
  }

  /** Absorbing a byte again changes nothing: assignment and OR are idempotent. */
  lemma AbsorbTwice(h: Header, x: nat, b: byte)
    requires Shaped(h)
    ensures Absorb(Absorb(h, x, b), x, b) == Absorb(h, x, b)
  {
    if 4 <= x < 8 {
      OrIdempotent(h.xid, Shl(b, 8 * (7 - x)));
    } else if 8 <= x < 10 {
      OrIdempotent(h.secs, Shl(b, 8 * (9 - x)));
    } else if 10 <= x < 12 {
      OrIdempotent(h.flags, Shl(b, 8 * (11 - x)));
    }
    hide Or, Shl;
  }

  lemma {:induction false} AbsorbRangeSplit(h: Header, buf: seq<byte>, from: nat, mid: nat, end: nat)
    requires Shaped(h) && from <= mid <= end <= |buf|
    ensures AbsorbRange(AbsorbRange(h, buf, from, mid), buf, mid, end) == AbsorbRange(h, buf, from, end)
    decreases end
  {
    if mid < end {
      AbsorbRangeSplit(h, buf, from, mid, end - 1);
    }
  }

  /** Resuming at a byte that had already been looked at is as good as resuming after it. */
  lemma ResumeAtLookahead(h: Header, buf: seq<byte>, from: nat, end: nat)
    requires Shaped(h) && from < end <= |buf|
    ensures AbsorbRange(Absorb(h, from, buf[from]), buf, from, end) == AbsorbRange(h, buf, from, end)
  {
    AbsorbTwice(h, from, buf[from]);
    assert AbsorbRange(h, buf, from, from + 1) == Absorb(h, from, buf[from]);
    AbsorbRangeSplit(h, buf, from, from + 1, end);
    AbsorbRangeSplit(Absorb(h, from, buf[from]), buf, from, from + 1, end);
  }

  // ---- Chunks ----

  /**
   The fields after `consume` on the `size` bytes of `buf` from `offset` on. The break test lets
   one byte beyond the chunk through, unless the header is complete.
   */
  function Consumed(h: Header, buf: seq<byte>, offset: nat, size: nat): (r: Header)
    requires Shaped(h) && |buf| == HEADER_SIZE && offset <= HEADER_SIZE
    ensures Shaped(r)
  {
    AbsorbRange(h, buf, offset, Min(offset + size + 1, HEADER_SIZE))
  }

  /** The fields stand for the first `offset` bytes, with or without one byte of lookahead. */
  ghost predicate StandsFor(h: Header, buf: seq<byte>, offset: nat)
    requires |buf| == HEADER_SIZE && offset <= HEADER_SIZE
  {
    || h == AbsorbRange(BLANK, buf, 0, offset)
    || h == AbsorbRange(BLANK, buf, 0, Min(offset + 1, HEADER_SIZE))
  }

  lemma ConsumeAdvances(h: Header, buf: seq<byte>, offset: nat, size: nat)
    requires |buf| == HEADER_SIZE && offset <= HEADER_SIZE
    requires Shaped(h) && StandsFor(h, buf, offset)
    ensures StandsFor(Consumed(h, buf, offset, size), buf, Min(offset + size, HEADER_SIZE))
  {
    var end := Min(offset + size + 1, HEADER_SIZE);
    var exact := AbsorbRange(BLANK, buf, 0, offset);
    AbsorbRangeSplit(BLANK, buf, 0, offset, end);
    if offset < HEADER_SIZE {
      assert AbsorbRange(BLANK, buf, 0, offset + 1) == Absorb(exact, offset, buf[offset]);
      ResumeAtLookahead(exact, buf, offset, end);
    }
    hide Absorb, AbsorbRange;
  }

  /** Feeding chunks of the given sizes one after another: the fields and the sum of the counts. */
  function ConsumeAll(h: Header, buf: seq<byte>, offset: nat, sizes: seq<nat>): (Header, nat)
    requires Shaped(h) && |buf| == HEADER_SIZE && offset <= HEADER_SIZE
    decreases |sizes|
  {
    if sizes == [] then (h, 0)
    else
      var next := Min(offset + sizes[0], HEADER_SIZE);
      var (h', n) := ConsumeAll(Consumed(h, buf, offset, sizes[0]), buf, next, sizes[1..]);
      (h', next - offset + n)
  }

  function Sum(sizes: seq<nat>): nat {
    if sizes == [] then 0 else sizes[0] + Sum(sizes[1..])
  }

  lemma {:induction false} ConsumeAllAdvances(h: Header, buf: seq<byte>, offset: nat, sizes: seq<nat>)
    requires |buf| == HEADER_SIZE && offset <= HEADER_SIZE
    requires Shaped(h) && StandsFor(h, buf, offset)
    ensures var (h', n) := ConsumeAll(h, buf, offset, sizes);
      offset + n == Min(offset + Sum(sizes), HEADER_SIZE) && StandsFor(h', buf, offset + n)
    decreases |sizes|
  {
    hide Absorb, AbsorbRange;
    if sizes != [] {
      ConsumeAdvances(h, buf, offset, sizes[0]);
      hide StandsFor, Consumed;
      ConsumeAllAdvances(Consumed(h, buf, offset, sizes[0]), buf, Min(offset + sizes[0], HEADER_SIZE), sizes[1..]);
    }
  }

  // ---- The big-endian reading of the header ----

  function Decode(buf: seq<byte>): Header
    requires |buf| >= HEADER_SIZE
  {
    Header(buf[0], buf[1], buf[2], buf[3], Be32(buf[4..8]), Be16(buf[8], buf[9]), Be16(buf[10], buf[11]),
           buf[12..16], buf[16..20], buf[20..24], buf[24..28], buf[28..34])
  }

  /** One more byte below the ones already in place. */
  lemma AppendByte(v: nat, b: byte, k: nat)
    ensures Or(Shl(v, k + 8), Shl(b, k)) == Shl(v * 0x100 + b, k)
  {
    ShlAdds(v, k, k + 8);
    ShlTimes(v);
    ShlTimes(1);
    OrDisjoint(v, b, 8);
    OrShl(Shl(v, 8), b, k);
  }

  /** Two bytes ORed in at positions `x` and `x + 1` of a field that ends at `last`. */
  lemma OrFields16(b0: byte, b1: byte, x: nat, last: nat)
    requires last == x + 1
    ensures Or(Or(0, Shl(b0, 8 * (last - x))), Shl(b1, 8 * (last - (x + 1)))) == Be16(b0, b1)
  {
    var k := last - x - 1;
    AppendByte(b0, b1, k);
    OrZero(b0, k + 8);
    hide Or;
  }

  lemma OrFields32(b0: byte, b1: byte, b2: byte, b3: byte, x: nat)
    requires x == 4
    ensures Or(Or(Or(Or(0, Shl(b0, 8 * (7 - x))), Shl(b1, 8 * (7 - (x + 1)))), Shl(b2, 8 * (7 - (x + 2)))),
               Shl(b3, 8 * (7 - (x + 3)))) == Be32([b0, b1, b2, b3])
  {
    var v1: nat := b0 * 0x100 + b1;
    var v2: nat := v1 * 0x100 + b2;
    var v3: nat := v2 * 0x100 + b3;
    assert v3 == Be32([b0, b1, b2, b3]);
    hide Or, Shl, Be32;
    ShlZero(v3);
    OrZero(b0, 28 - x);
    AppendByte(b0, b1, 20 - x);
    AppendByte(v1, b2, 12 - x);
    AppendByte(v2, b3, 4 - x);
  }

  lemma OrZero(b: byte, k: nat)
    ensures Or(0, Shl(b, k)) == Shl(b, k)
  {
  }

  lemma AbsorbFour(h: Header, buf: seq<byte>, x: nat)
    requires Shaped(h) && |buf| == HEADER_SIZE && x + 4 <= HEADER_SIZE
    ensures AbsorbRange(h, buf, x, x + 4)
         == Absorb(Absorb(Absorb(Absorb(h, x, buf[x]), x + 1, buf[x + 1]), x + 2, buf[x + 2]), x + 3, buf[x + 3])
  {
    hide Absorb;
    assert AbsorbRange(h, buf, x, x) == h;
    assert AbsorbRange(h, buf, x, x + 1) == Absorb(h, x, buf[x]);
    assert AbsorbRange(h, buf, x, x + 2) == Absorb(Absorb(h, x, buf[x]), x + 1, buf[x + 1]);
  }

  lemma AbsorbXid(h: Header, buf: seq<byte>)
    requires Shaped(h) && |buf| == HEADER_SIZE && h.xid == 0
    ensures AbsorbRange(h, buf, 4, 8) == h.(xid := Be32(buf[4..8]))
  {
    hide Or, Shl, AbsorbRange, Be32;
    AbsorbFour(h, buf, 4);
    OrFields32(buf[4], buf[5], buf[6], buf[7], 4);
    assert buf[4..8] == [buf[4], buf[5], buf[6], buf[7]];
  }

  lemma AbsorbSecsFlags(h: Header, buf: seq<byte>)
    requires Shaped(h) && |buf| == HEADER_SIZE && h.secs == h.flags == 0
    ensures AbsorbRange(h, buf, 8, 12) == h.(secs := Be16(buf[8], buf[9]), flags := Be16(buf[10], buf[11]))
  {
    hide Or, Shl, AbsorbRange, Be16;
    AbsorbFour(h, buf, 8);
    OrFields16(buf[8], buf[9], 8, 9);
    OrFields16(buf[10], buf[11], 10, 11);
  }

  lemma AbsorbNumbers(h: Header, buf: seq<byte>)
    requires Shaped(h) && |buf| == HEADER_SIZE && h.xid == h.secs == h.flags == 0
    ensures AbsorbRange(h, buf, 0, 12)
         == h.(op := buf[0], htype := buf[1], hlen := buf[2], hops := buf[3], xid := Be32(buf[4..8]),
               secs := Be16(buf[8], buf[9]), flags := Be16(buf[10], buf[11]))
  {
    AbsorbRangeSplit(h, buf, 0, 4, 8);
    AbsorbRangeSplit(h, buf, 0, 8, 12);
    AbsorbFour(h, buf, 0);
    var h4 := AbsorbRange(h, buf, 0, 4);
    AbsorbXid(h4, buf);
    AbsorbSecsFlags(AbsorbRange(h4, buf, 4, 8), buf);
    hide Or, Shl, AbsorbRange, Be16, Be32;
  }

  lemma AbsorbCiaddr(h: Header, buf: seq<byte>)
    requires Shaped(h) && |buf| == HEADER_SIZE
    ensures AbsorbRange(h, buf, 12, 16) == h.(ciaddr := buf[12..16])
  {
    AbsorbFour(h, buf, 12);
    hide Or, Shl, AbsorbRange;
    assert h.ciaddr[0 := buf[12]][1 := buf[13]][2 := buf[14]][3 := buf[15]] == buf[12..16];
  }

  lemma AbsorbYiaddr(h: Header, buf: seq<byte>)
    requires Shaped(h) && |buf| == HEADER_SIZE
    ensures AbsorbRange(h, buf, 16, 20) == h.(yiaddr := buf[16..20])
  {
    AbsorbFour(h, buf, 16);
    hide Or, Shl, AbsorbRange;
    assert h.yiaddr[0 := buf[16]][1 := buf[17]][2 := buf[18]][3 := buf[19]] == buf[16..20];
  }

  lemma AbsorbSiaddr(h: Header, buf: seq<byte>)
    requires Shaped(h) && |buf| == HEADER_SIZE
    ensures AbsorbRange(h, buf, 20, 24) == h.(siaddr := buf[20..24])
  {
    AbsorbFour(h, buf, 20);
    hide Or, Shl, AbsorbRange;
    assert h.siaddr[0 := buf[20]][1 := buf[21]][2 := buf[22]][3 := buf[23]] == buf[20..24];
  }

  lemma AbsorbGiaddr(h: Header, buf: seq<byte>)
    requires Shaped(h) && |buf| == HEADER_SIZE
    ensures AbsorbRange(h, buf, 24, 28) == h.(giaddr := buf[24..28])
  {
    AbsorbFour(h, buf, 24);
    hide Or, Shl, AbsorbRange;
    assert h.giaddr[0 := buf[24]][1 := buf[25]][2 := buf[26]][3 := buf[27]] == buf[24..28];
  }

  lemma AbsorbAddresses(h: Header, buf: seq<byte>)
    requires Shaped(h) && |buf| == HEADER_SIZE
    ensures AbsorbRange(h, buf, 12, 28)
         == h.(ciaddr := buf[12..16], yiaddr := buf[16..20], siaddr := buf[20..24], giaddr := buf[24..28])
  {
    AbsorbRangeSplit(h, buf, 12, 16, 20);
    AbsorbRangeSplit(h, buf, 12, 20, 24);
    AbsorbRangeSplit(h, buf, 12, 24, 28);
    var h16 := AbsorbRange(h, buf, 12, 16);
    var h20 := AbsorbRange(h16, buf, 16, 20);
    var h24 := AbsorbRange(h20, buf, 20, 24);
    AbsorbCiaddr(h, buf);
    AbsorbYiaddr(h16, buf);
    AbsorbSiaddr(h20, buf);
    AbsorbGiaddr(h24, buf);
    hide Absorb, AbsorbRange;
  }

  lemma AbsorbHardware(h: Header, buf: seq<byte>)
    requires Shaped(h) && |buf| == HEADER_SIZE
    ensures AbsorbRange(h, buf, 28, 34) == h.(chaddr := buf[28..34])
  {
    hide Or, Shl;
    AbsorbRangeSplit(h, buf, 28, 32, 34);
    AbsorbFour(h, buf, 28);
    var h32 := AbsorbRange(h, buf, 28, 32);
    assert AbsorbRange(h32, buf, 32, 33) == Absorb(h32, 32, buf[32]);
    assert AbsorbRange(h32, buf, 32, 34) == Absorb(Absorb(h32, 32, buf[32]), 33, buf[33]);
  }

  lemma AbsorbAllDecodes(buf: seq<byte>)
    requires |buf| == HEADER_SIZE
    ensures AbsorbRange(BLANK, buf, 0, HEADER_SIZE) == Decode(buf)
  {
    AbsorbRangeSplit(BLANK, buf, 0, 12, 28);
    AbsorbRangeSplit(BLANK, buf, 0, 28, 34);
    AbsorbNumbers(BLANK, buf);
    var h12 := AbsorbRange(BLANK, buf, 0, 12);
    AbsorbAddresses(h12, buf);
    AbsorbHardware(AbsorbRange(h12, buf, 12, 28), buf);
    hide AbsorbRange;
  }

  /**
   Any split of the header into chunks, empty ones included, ends with the big-endian decoding,
   and the counts returned sum to the header's size: the lookahead byte does no harm.
   */
  lemma ChunksDecode(buf: seq<byte>, sizes: seq<nat>)
    requires |buf| == HEADER_SIZE && Sum(sizes) >= HEADER_SIZE
    ensures ConsumeAll(BLANK, buf, 0, sizes) == (Decode(buf), HEADER_SIZE)
  {
    ConsumeAllAdvances(BLANK, buf, 0, sizes);
    AbsorbAllDecodes(buf);
  }

  /** The parser itself: the fields, and how many bytes of the header have been consumed. */
  class ParseContext {
    var op: byte
    var htype: byte
    var hlen: byte
    var hops: byte
    var xid: nat
    var secs: nat
    var flags: nat
    var ciaddr: seq<byte>
    var yiaddr: seq<byte>
    var siaddr: seq<byte>
    var giaddr: seq<byte>
    var chaddr: seq<byte>
    var offset: nat

    constructor ()
      ensures View() == BLANK && offset == 0
    {
      op, htype, hlen, hops := 0, 0, 0, 0;
      xid, secs, flags := 0, 0, 0;
      ciaddr, yiaddr, siaddr, giaddr := ZeroBytes(4), ZeroBytes(4), ZeroBytes(4), ZeroBytes(4);
      chaddr := ZeroBytes(6);
      offset := 0;
    }

    function View(): Header
      reads this
    {
      Header(op, htype, hlen, hops, xid, secs, flags, ciaddr, yiaddr, siaddr, giaddr, chaddr)
    }

    /** The body of case `x`. */
    method Assign(x: nat, b: byte)
      requires Shaped(View()) && x < HEADER_SIZE
      modifies this
      ensures View() == Absorb(old(View()), x, b)
      ensures offset == old(offset)
    {
      hide Or, Shl;
      if x == 0 {
        op := b;
      } else if x == 1 {
        htype := b;
      } else if x == 2 {
        hlen := b;
      } else if x == 3 {
        hops := b;
      } else if x < 8 {
        xid := Or(xid, Shl(b, 8 * (7 - x)));
      } else if x < 10 {
        secs := Or(secs, Shl(b, 8 * (9 - x)));
      } else if x < 12 {
        flags := Or(flags, Shl(b, 8 * (11 - x)));
      } else if x < 16 {
        ciaddr := ciaddr[x - 12 := b];
      } else if x < 20 {
        yiaddr := yiaddr[x - 16 := b];
      } else if x < 24 {
        siaddr := siaddr[x - 20 := b];
      } else if x < 28 {
        giaddr := giaddr[x - 24 := b];
      } else {
        chaddr := chaddr[x - 28 := b];
      }
    }

    /**
     Consumes `size` bytes of a packet that starts with `buf`; the data pointer stands at byte
     `offset`. Falls through the cases until the break test stops it.
     */
    method Consume(buf: seq<byte>, size: nat) returns (consumed: nat)
      requires |buf| == HEADER_SIZE && offset <= HEADER_SIZE && Shaped(View())
      modifies this
      ensures View() == Consumed(old(View()), buf, old(offset), size)
      ensures offset == Min(old(offset) + size, HEADER_SIZE) && consumed == offset - old(offset)
    {
      ghost var h := View();
      var x := offset;
      hide Absorb;
      while x < HEADER_SIZE
        invariant offset == old(offset) <= x <= Min(offset + size + 1, HEADER_SIZE)
        invariant x < HEADER_SIZE ==> x <= offset + size
        invariant Shaped(View()) && View() == AbsorbRange(h, buf, offset, x)
      {
        Assign(x, buf[x]);
        x := x + 1;
        if x - 1 - offset >= size {
          break;
        }
      }
      var oldOffset := offset;
      offset := offset + size;
      if offset >= HEADER_SIZE {
        offset := HEADER_SIZE;
      }
      consumed := offset - oldOffset;
    }
  }
}

/** Machine words: bytes, big-endian fields and wrapping 16-bit arithmetic. */
module Words {
  const U16 := 0x1_0000
  const U32 := 0x1_0000_0000
  const U64 := 0x1_0000_0000_0000_0000

  type byte = x: int | 0 <= x < 0x100
  type u16 = x: int | 0 <= x < 0x1_0000
  type u32 = x: int | 0 <= x < 0x1_0000_0000
  type u64 = x: int | 0 <= x < 0x1_0000_0000_0000_0000

  type Ipv4 = s: seq<byte> | |s| == 4 witness [0, 0, 0, 0]

  function Min(a: nat, b: nat): nat {
    if a <= b then a else b
  }

  function Wrap16(x: int): u16 {
    x % U16
  }

  lemma WrapSmall(x: int)
    requires 0 <= x < U16
    ensures Wrap16(x) == x
  {
  }

  function Wrap32(x: int): u32 {
    x % U32
  }

  function Wrap64(x: int): u64 {
    x % U64
  }

  /** The 16-bit difference `a - b`, as an unsigned subtraction leaves it. */
  function Sub16(a: u16, b: u16): u16 {
    Wrap16(a - b)
  }

  function Hi(v: u16): byte {
    v / 0x100
  }

  function Lo(v: u16): byte {
    v % 0x100
  }

  function Be16(hi: byte, lo: byte): u16 {
    hi * 0x100 + lo
  }

  function Bytes16(v: u16): (b: seq<byte>)
    ensures |b| == 2
  {
    [Hi(v), Lo(v)]
  }

  /** Four bytes, most significant first. */
  function Be32(b: seq<byte>): u32
    requires |b| == 4
  {
    (b[0] as int) * 0x100_0000 + (b[1] as int) * 0x1_0000 + (b[2] as int) * 0x100 + b[3] as int
  }

  function Bytes32(v: u32): (b: seq<byte>)
    ensures |b| == 4
  {
    [v / 0x100_0000, v / 0x1_0000 % 0x100, v / 0x100 % 0x100, v % 0x100]
  }

  /** Fields of two and four bytes have their most significant byte first. */
  lemma NetworkOrder(a: byte, b: byte, c: byte, d: byte)
    ensures Be16(a, b) == 256 * a as int + b as int && Bytes16(256 * a as int + b as int) == [a, b]
    ensures Be32([a, b, c, d]) == 16777216 * a as int + 65536 * b as int + 256 * c as int + d as int
    ensures Bytes32(16777216 * a as int + 65536 * b as int + 256 * c as int + d as int) == [a, b, c, d]
  {
    var v := 16777216 * a as int + 65536 * b as int + 256 * c as int + d as int;
    assert v / 0x100 == 65536 * a as int + 256 * b as int + c as int;
    assert v / 0x1_0000 == 256 * a as int + b as int;
    assert v / 0x100_0000 == a;
  }

  lemma Bytes32RoundTrip(v: u32)
    ensures Be32(Bytes32(v)) == v
  {
    var high := v / 0x100;
    assert v / 0x1_0000 == high / 0x100;
    var top := high / 0x100;
    assert v / 0x100_0000 == top / 0x100;
    assert v == high * 0x100 + v % 0x100;
    assert high == top * 0x100 + high % 0x100;
    assert top == top / 0x100 * 0x100 + top % 0x100;
  }

  lemma Associates(a: seq<byte>, b: seq<byte>, c: seq<byte>)
    ensures a + b + c == a + (b + c)
  {
  }

  function ZeroBytes(n: nat): (z: seq<byte>)
    ensures |z| == n
    ensures forall i | 0 <= i < n :: z[i] == 0
  {
    seq(n, _ => 0)
  }

  /** `x` occurs in `p` at offset `o`. */
  ghost predicate At(p: seq<byte>, o: nat, x: seq<byte>) {
    o + |x| <= |p| && p[o..o + |x|] == x
  }

  lemma AtParts(p: seq<byte>, o: nat, x: seq<byte>, y: seq<byte>)
    requires At(p, o, x + y)
    ensures At(p, o, x) && At(p, o + |x|, y)
  {
    assert p[o..o + |x|] == (x + y)[..|x|] == x;
    assert p[o + |x|..o + |x| + |y|] == (x + y)[|x|..] == y;
  }

  lemma AtByte(p: seq<byte>, o: nat, x: seq<byte>, i: nat)
    requires At(p, o, x) && i < |x|
    ensures p[o + i] == x[i]
  {
    assert p[o + i] == p[o..o + |x|][i];
  }

  lemma AtEnds(p: seq<byte>, o: nat, x: seq<byte>)
    requires At(p, o, x)
    ensures o + |x| <= |p|
  {
  }

  lemma AtSlice(p: seq<byte>, o: nat, x: seq<byte>, i: nat, j: nat)
    requires At(p, o, x) && i <= j <= |x|
    ensures p[o + i..o + j] == x[i..j]
  {
    forall k | 0 <= k < j - i
      ensures p[o + i..o + j][k] == x[i..j][k]
    {
      AtByte(p, o, x, i + k);
    }
  }

  function Concat(parts: seq<seq<byte>>): seq<byte> {
    if parts == [] then [] else parts[0] + Concat(parts[1..])
  }

  lemma {:induction false} ConcatAppend(parts: seq<seq<byte>>, last: seq<byte>)
    ensures Concat(parts + [last]) == Concat(parts) + last
  {
    if parts == [] {
      assert Concat([last]) == last + Concat([]) == last;
    } else {
      assert (parts + [last])[1..] == parts[1..] + [last];
      ConcatAppend(parts[1..], last);
    }
  }
}

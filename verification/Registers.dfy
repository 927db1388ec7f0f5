/** The register map and the three-byte header of an SPI frame. */
module Registers {
  import opened Words

  datatype Register = Register(offset: byte, size: nat)

  // ---- Block select ----

  const COMMON_BLOCK: nat := 0
  const MAX_SOCKETS: nat := 8

  function SocketBlock(n: nat): nat {
    n * 4 + 1
  }

  function TxBlock(n: nat): nat {
    n * 4 + 2
  }

  function RxBlock(n: nat): nat {
    n * 4 + 3
  }

  // ---- Common registers ----

  const GATEWAY := Register(0x01, 4)
  const SUBNET_MASK := Register(0x05, 4)
  const HARDWARE_ADDRESS := Register(0x09, 6)
  const SOURCE_IP := Register(0x0F, 4)

  const COMMON_MAP: seq<Register> := [
    Register(0x00, 1), GATEWAY, SUBNET_MASK, HARDWARE_ADDRESS, SOURCE_IP, Register(0x13, 2),
    Register(0x15, 1), Register(0x16, 1), Register(0x17, 1), Register(0x18, 1), Register(0x19, 2),
    Register(0x1B, 1), Register(0x1C, 1), Register(0x1D, 1), Register(0x1E, 6), Register(0x24, 2),
    Register(0x26, 2), Register(0x28, 4), Register(0x2C, 2), Register(0x2E, 1), Register(0x39, 1)]

  // ---- Socket registers ----

  const MODE := Register(0x00, 1)
  const COMMAND := Register(0x01, 1)
  const INTERRUPT := Register(0x02, 1)
  const STATUS := Register(0x03, 1)
  const SOURCE_PORT := Register(0x04, 2)
  const DEST_IP := Register(0x0C, 4)
  const DEST_PORT := Register(0x10, 2)
  const TX_FREE_SIZE := Register(0x20, 2)
  const TX_READ_POINTER := Register(0x22, 2)
  const TX_WRITE_POINTER := Register(0x24, 2)
  const RX_RECEIVED_SIZE := Register(0x26, 2)
  const RX_READ_POINTER := Register(0x28, 2)
  const RX_WRITE_POINTER := Register(0x2A, 2)

  const SOCKET_MAP: seq<Register> := [
    MODE, COMMAND, INTERRUPT, STATUS, SOURCE_PORT, Register(0x06, 6), DEST_IP, DEST_PORT,
    Register(0x12, 2), Register(0x15, 1), Register(0x16, 1), Register(0x1E, 1), Register(0x1F, 1),
    TX_FREE_SIZE, TX_READ_POINTER, TX_WRITE_POINTER, RX_RECEIVED_SIZE, RX_READ_POINTER,
    RX_WRITE_POINTER, Register(0x2C, 1), Register(0x2D, 2), Register(0x2F, 1)]

  // ---- Commands and status ----

  const OPEN: byte := 0x01
  const CLOSE: byte := 0x10
  const SEND: byte := 0x20
  const RECV: byte := 0x40
  const MODE_UDP: byte := 2
  const STATUS_UDP: byte := 0x22
  const FLAG_RECV: byte := 4

  /** Each register ends at or before the next one starts. */
  ghost predicate Ascending(map': seq<Register>) {
    forall i | 0 <= i < |map'| - 1 :: map'[i].offset + map'[i].size <= map'[i + 1].offset
  }

  lemma {:induction false} AscendingDisjoint(map': seq<Register>, i: nat, j: nat)
    requires Ascending(map') && i < j < |map'|
    ensures map'[i].offset + map'[i].size <= map'[j].offset
    decreases j
  {
    if i < j - 1 {
      AscendingDisjoint(map', i, j - 1);
    }
  }

  ghost predicate Overlap(a: Register, b: Register) {
    a.offset < b.offset + b.size && b.offset < a.offset + a.size
  }

  /** No two registers of a block share a byte, so writing one leaves every other alone. */
  lemma RegistersDisjoint(i: nat, j: nat)
    ensures i < |COMMON_MAP| && j < |COMMON_MAP| && i != j ==> !Overlap(COMMON_MAP[i], COMMON_MAP[j])
    ensures i < |SOCKET_MAP| && j < |SOCKET_MAP| && i != j ==> !Overlap(SOCKET_MAP[i], SOCKET_MAP[j])
  {
    CommonAscending();
    SocketAscending();
    hide COMMON_MAP, SOCKET_MAP;
    if i < |COMMON_MAP| && j < |COMMON_MAP| && i != j {
      AscendingDisjoint(COMMON_MAP, if i < j then i else j, if i < j then j else i);
    }
    if i < |SOCKET_MAP| && j < |SOCKET_MAP| && i != j {
      AscendingDisjoint(SOCKET_MAP, if i < j then i else j, if i < j then j else i);
    }
  }

  lemma CommonAscending()
    ensures Ascending(COMMON_MAP)
  {
  }

  lemma SocketAscending()
    ensures Ascending(SOCKET_MAP)
  {
  }

  // ---- SPI frame headers ----

  /** Address, high byte first, then block select, read/write bit and variable-length mode. */
  function FrameHeader(block: nat, address: u16, write: bool): seq<byte>
    requires block < 32
  {
    [Hi(address), Lo(address), block * 8 + if write then 4 else 0]
  }

  /** The chip's reading of a header. */
  function Block(h: seq<byte>): nat
    requires |h| == 3
  {
    h[2] / 8
  }

  function Address(h: seq<byte>): u16
    requires |h| == 3
  {
    Be16(h[0], h[1])
  }

  predicate IsWrite(h: seq<byte>)
    requires |h| == 3
  {
    h[2] / 4 % 2 == 1
  }

  /** The chip decodes the block, address and direction the driver encoded. */
  lemma FrameHeaderDecodes(block: nat, address: u16, write: bool)
    requires block < 32
    ensures var h := FrameHeader(block, address, write);
      Block(h) == block && Address(h) == address && IsWrite(h) == write
  {
  }

  /** Every socket has blocks of its own. */
  lemma BlocksDistinct(n: nat, m: nat)
    requires n < MAX_SOCKETS && m < MAX_SOCKETS
    ensures {SocketBlock(n), TxBlock(n), RxBlock(n)} !! {COMMON_BLOCK}
    ensures |{SocketBlock(n), TxBlock(n), RxBlock(n)}| == 3
    ensures n != m ==> {SocketBlock(n), TxBlock(n), RxBlock(n)} !! {SocketBlock(m), TxBlock(m), RxBlock(m)}
    ensures RxBlock(n) < 32
  {
    assert |{SocketBlock(n)}| == 1;
    assert |{SocketBlock(n), TxBlock(n)}| == |{SocketBlock(n)}| + 1;
  }
}

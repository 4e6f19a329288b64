/// RTPS identifiers and sequence numbers (include/dds/rtps/types.hpp,
/// include/dds/rtps/reliable.hpp).

module Rtps {
  import opened Octets

  const U16: nat := 0x1_0000
  const U32: nat := 0x1_0000_0000
  const U64: nat := 0x1_0000_0000_0000_0000

  type u16 = n: nat | n < 0x1_0000
  type u32 = n: nat | n < 0x1_0000_0000
  type i32 = n: int | -0x8000_0000 <= n < 0x8000_0000

  type Prefix = b: Bytes | |b| == 12 witness [0, 0, 0, 0, 0, 0, 0, 0, 0, 0, 0, 0]
  type EntityId = b: Bytes | |b| == 4 witness [0, 0, 0, 0]

  const UNKNOWN: EntityId := [0, 0, 0, 0]

  datatype Guid = Guid(prefix: Prefix, entity: EntityId)

  datatype SeqNum = SeqNum(high: i32, low: u32)

  // static_cast between int32_t and uint32_t.
  function Unsigned(n: i32): u32 { if n < 0 then n + U32 else n }

  function Signed(n: u32): i32 { if 2 * n >= U32 then n - U32 else n }

  // sn_to_u64
  function ToU64(sn: SeqNum): (v: nat)
    ensures v < U64
  {
    Unsigned(sn.high) * U32 + sn.low
  }

  // u64_to_sn
  function FromU64(v: nat): SeqNum
    requires v < U64
  {
    SeqNum(Signed(v / U32), v % U32)
  }

  // The two words of a sequence number and the number carry the same information.
  lemma SeqNumRoundTrip(sn: SeqNum, v: nat)
    requires v < U64
    ensures FromU64(ToU64(sn)) == sn && ToU64(FromU64(v)) == v
  {
    assert Signed(Unsigned(sn.high)) == sn.high;
    assert Unsigned(Signed(v / U32)) == v / U32;
    assert v == v / U32 * U32 + v % U32;
  }

  datatype DataFrag = DataFrag(reader: EntityId, writer: EntityId, seqNum: SeqNum,
                               start: u32, count: u16, fragSize: u16, dataSize: u32, payload: Bytes)
}

/** Byte sequences and big-endian integers. */
module Bytes {
  type Byte = x: int | 0 <= x < 256
  type Bytes = seq<Byte>
  type U16 = x: int | 0 <= x < 0x1_0000
  type U32 = x: int | 0 <= x < 0x1_0000_0000
  type U64 = x: int | 0 <= x < 0x1_0000_0000_0000_0000

  datatype Option<+T> = None | Some(value: T)

  /** The two bytes that are read as `n`. */
  function ToU16(n: U16): (b: Bytes)
    ensures |b| == 2 && FromU16(b[0], b[1]) == n
  {
    assert FromU16(n / 256, n % 256) == n;
    var hi: Byte, lo: Byte :| FromU16(hi, lo) == n;
    [hi, lo]
  }

  function FromU16(hi: Byte, lo: Byte): (n: U16) {
    256 * hi + lo
  }

  function ToU32(n: U32): (b: Bytes)
    ensures |b| == 4 && FromU32(b) == n
  {
    ToU16(n / 0x1_0000) + ToU16(n % 0x1_0000)
  }

  function FromU32(b: Bytes): (n: U32)
    requires |b| == 4
  {
    FromU16(b[0], b[1]) * 0x1_0000 + FromU16(b[2], b[3])
  }

  function ToU64(n: U64): (b: Bytes)
    ensures |b| == 8
  {
    ToU32(n / 0x1_0000_0000) + ToU32(n % 0x1_0000_0000)
  }

  function FromU64(b: Bytes): U64
    requires |b| == 8
  {
    FromU32(b[..4]) * 0x1_0000_0000 + FromU32(b[4..])
  }

  lemma U64ReadBack(n: U64)
    ensures FromU64(ToU64(n)) == n
  {
    hide ToU32, FromU32;
    assert ToU64(n)[..4] == ToU32(n / 0x1_0000_0000) && ToU64(n)[4..] == ToU32(n % 0x1_0000_0000);
  }

  function Zeros(n: nat): (z: Bytes)
    ensures |z| == n && forall i :: 0 <= i < n ==> z[i] == 0
  {
    seq(n, _ => 0)
  }

  lemma ZerosAdd(a: nat, b: nat)
    ensures Zeros(a) + Zeros(b) == Zeros(a + b)
  {
  }

  function Max(a: int, b: int): int {
    if a < b then b else a
  }

  function Min(a: int, b: int): int {
    if a < b then a else b
  }
}

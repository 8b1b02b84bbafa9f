/** Fixed-width unsigned integers of the C sources, with their wrap-around written out. */
module Machine {
  const TWO16: int := 0x1_0000
  const TWO32: int := 0x1_0000_0000
  const TWO64: int := 0x1_0000_0000_0000_0000

  type byte = x: int | 0 <= x < 0x100
  type u16 = x: int | 0 <= x < 0x1_0000
  type u32 = x: int | 0 <= x < 0x1_0000_0000
  type u64 = x: int | 0 <= x < 0x1_0000_0000_0000_0000

  function Add32(a: u32, b: u32): u32 { if a + b < TWO32 then a + b else a + b - TWO32 }

  function Sub32(a: u32, b: u32): u32 { if b <= a then a - b else a - b + TWO32 }

  function Add64(a: u64, b: u64): u64 { if a + b < TWO64 then a + b else a + b - TWO64 }

  function Sub64(a: u64, b: u64): u64 { if b <= a then a - b else a - b + TWO64 }

  function Min(a: int, b: int): int { if a < b then a else b }

  datatype Option<+T> = None | Some(value: T)

  // Big-endian fields, as protocol_write_u16 and its relatives lay them out.

  function U16Bytes(v: u16): (b: seq<byte>)
    ensures |b| == 2
  {
    [v / 0x100, v % 0x100]
  }

  function U16At(b: seq<byte>, i: nat): u16
    requires i + 2 <= |b|
  {
    (b[i] as int) * 0x100 + b[i + 1]
  }

  function U32Bytes(v: u32): (b: seq<byte>)
    ensures |b| == 4
  {
    [v / 0x100 / 0x100 / 0x100, v / 0x100 / 0x100 % 0x100, v / 0x100 % 0x100, v % 0x100]
  }

  function U32At(b: seq<byte>, i: nat): u32
    requires i + 4 <= |b|
  {
    ((b[i] as int * 0x100 + b[i + 1]) * 0x100 + b[i + 2]) * 0x100 + b[i + 3]
  }

  lemma U16RoundTrip(v: u16, b: seq<byte>, i: nat)
    requires i + 2 <= |b| && b[i..i + 2] == U16Bytes(v)
    ensures U16At(b, i) == v
  {
    assert b[i] == b[i..i + 2][0] && b[i + 1] == b[i..i + 2][1];
  }

  lemma U32RoundTrip(v: u32, b: seq<byte>, i: nat)
    requires i + 4 <= |b| && b[i..i + 4] == U32Bytes(v)
    ensures U32At(b, i) == v
  {
    assert b[i] == b[i..i + 4][0] && b[i + 1] == b[i..i + 4][1] && b[i + 2] == b[i..i + 4][2]
        && b[i + 3] == b[i..i + 4][3];
  }

  lemma Regroup<T>(a: seq<T>, b: seq<T>, c: seq<T>)
    ensures a + b + c == a + (b + c)
  {
  }
}

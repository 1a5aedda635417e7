/** Machine types of the C# code: `byte`, the 32-bit `int` and the 64-bit
    `long`, with the wrap-around of unchecked arithmetic written out. */
module Primitives {

  newtype byte = b: int | 0 <= b < 256

  /** A `byte[]` buffer. */
  type Bytes = seq<byte>

  const TwoTo32: int := 0x1_0000_0000
  const TwoTo64: int := 0x1_0000_0000_0000_0000

  type Int32 = x: int | -0x8000_0000 <= x < 0x8000_0000
  type Int64 = x: int | -0x8000_0000_0000_0000 <= x < 0x8000_0000_0000_0000

  /** The `int` that unchecked 32-bit arithmetic leaves for the exact value `x`. */
  function Wrap32(x: int): (r: Int32)
    ensures r % TwoTo32 == x % TwoTo32
    ensures -0x8000_0000 <= x < 0x8000_0000 ==> r == x
  {
    (x + 0x8000_0000) % TwoTo32 - 0x8000_0000
  }

  /** The `long` that unchecked 64-bit arithmetic leaves for the exact value `x`. */
  function Wrap64(x: int): (r: Int64)
    ensures r % TwoTo64 == x % TwoTo64
    ensures -0x8000_0000_0000_0000 <= x < 0x8000_0000_0000_0000 ==> r == x
  {
    (x + 0x8000_0000_0000_0000) % TwoTo64 - 0x8000_0000_0000_0000
  }

  /** Wrapping an intermediate sum does not change the wrapped total, so a
      running counter that wraps after every step holds the wrapped sum. */
  lemma Wrap32Add(x: int, y: int)
    ensures Wrap32(Wrap32(x) + y) == Wrap32(x + y)
  {
    var z := x + y + 0x8000_0000;
    var k := (x + 0x8000_0000) / TwoTo32;
    assert Wrap32(x) + y + 0x8000_0000 == z - k * TwoTo32;
    var q := z / TwoTo32;
    assert z - k * TwoTo32 == (q - k) * TwoTo32 + z % TwoTo32;
  }

  lemma Wrap64Add(x: int, y: int)
    ensures Wrap64(Wrap64(x) + y) == Wrap64(x + y)
  {
    var z := x + y + 0x8000_0000_0000_0000;
    var k := (x + 0x8000_0000_0000_0000) / TwoTo64;
    assert Wrap64(x) + y + 0x8000_0000_0000_0000 == z - k * TwoTo64;
    var q := z / TwoTo64;
    assert z - k * TwoTo64 == (q - k) * TwoTo64 + z % TwoTo64;
  }
}

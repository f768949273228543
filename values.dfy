/** Fixed-width integers, addresses and the two records of the order-book engine
    (`Pair`, `Order`). Go's integer types are modelled as bounded subsets of `int`;
    where the source relies on wrap-around it is written out explicitly. */
module Values {

  const TWO_16: int := 0x1_0000
  const TWO_31: int := 0x8000_0000
  const TWO_32: int := 0x1_0000_0000
  const TWO_64: int := 0x1_0000_0000_0000_0000
  const TWO_160: int := 0x1_0000_0000_0000_0000_0000_0000_0000_0000_0000_0000
  const TWO_256: int := 0x1_0000_0000_0000_0000_0000_0000_0000_0000_0000_0000_0000_0000_0000_0000_0000_0000

  type u16 = x: int | 0 <= x < TWO_16
  type u32 = x: int | 0 <= x < TWO_32
  type u64 = x: int | 0 <= x < TWO_64
  type i32 = x: int | -TWO_31 <= x < TWO_31
  /** A `uint256.Int` value. */
  type u256 = x: int | 0 <= x < TWO_256

  /** A 20-byte account address, kept opaque: only equality is used. */
  type Address = x: int | 0 <= x < TWO_160

  datatype Option<T> = None | Some(value: T)

  /** `uint256.Int.Add`: the sum wraps modulo 2^256. */
  function AddU256(a: u256, b: u256): (r: u256)
    ensures a + b < TWO_256 ==> r == a + b
    ensures a + b >= TWO_256 ==> r == a + b - TWO_256
  {
    (a + b) % TWO_256
  }

  /** Go's conversion `int32(x)` of a `uint32`: the bits are reinterpreted in two's complement. */
  function Int32Of(x: u32): (r: i32)
    ensures r % TWO_32 == x
    ensures (r >= 0) == (x < TWO_31)
  {
    if x < TWO_31 then x else x - TWO_32
  }

  /** Go's unary minus on a `uint32`, which wraps. */
  function NegU32(x: u32): (r: u32)
    ensures (x + r) % TWO_32 == 0
  {
    (TWO_32 - x) % TWO_32
  }

  /** Go's `x++` on a `uint32`, which wraps to 0 after 2^32 - 1. */
  function IncU32(x: u32): (r: u32)
    ensures x < TWO_32 - 1 ==> r == x + 1
    ensures x == TWO_32 - 1 ==> r == 0
  {
    (x + 1) % TWO_32
  }

  /** A tradable pair as registered; `createPair` does not read any of it. */
  datatype Pair = Pair(pairId: i32, asset0: u32, asset1: u32, tickSpacing: u16,
                       tickLowerBound: u32, tickUpperBound: u32)

  /** A resting order: the sign of `pairId` is the trade direction. */
  datatype Order = Order(id: u64, pairId: i32, price: u32, amount: u256, from: Address)
}

/** The fixed-width integers the verifiers compute with. Every arithmetic step
    on them is checked by Dafny to stay in range, so a definition over these
    types is also a proof that the Rust expression neither wraps nor panics. */
module Machine {
  newtype Byte = x: int | 0 <= x < 0x100
  newtype U64 = x: int | 0 <= x < 0x1_0000_0000_0000_0000
  newtype I64 = x: int | -0x8000_0000_0000_0000 <= x < 0x8000_0000_0000_0000
  newtype U128 = x: int | 0 <= x < 0x1_0000_0000_0000_0000_0000_0000_0000_0000
  newtype I128 = x: int | -0x8000_0000_0000_0000_0000_0000_0000_0000 <= x < 0x8000_0000_0000_0000_0000_0000_0000_0000

  const I64_MIN: int := -0x8000_0000_0000_0000
  const I64_MAX: int := 0x7FFF_FFFF_FFFF_FFFF

  type Bytes = seq<Byte>
}

/**
 * Types shared by every canister: fixed-width integers, principals and the
 * `ApiError` enum of `src/lib/types/api_error.rs`.
 */
module Types {
  import W = Wrappers

  type u8 = x: int | 0 <= x < 0x100
  type u16 = x: int | 0 <= x < 0x1_0000
  type u32 = x: int | 0 <= x < 0x1_0000_0000
  type u64 = x: int | 0 <= x < 0x1_0000_0000_0000_0000
  type i8 = x: int | -0x80 <= x < 0x80
  type i16 = x: int | -0x8000 <= x < 0x8000
  type i32 = x: int | -0x8000_0000 <= x < 0x8000_0000
  type i64 = x: int | -0x8000_0000_0000_0000 <= x < 0x8000_0000_0000_0000

  const U32_MAX: u32 := 0xFFFF_FFFF

  /** `a + 1` on a `u32`, wrapping at 2^32 as an unchecked (release) build does. */
  function WrappingIncrement(a: u32): (r: u32)
    ensures a < U32_MAX ==> r == a + 1
    ensures a == U32_MAX ==> r == 0
  {
    (a + 1) % 0x1_0000_0000
  }

  /**
   * A principal, identified with its canonical textual form
   * (`Principal::to_string`); the byte-to-text encoding is not modelled.
   */
  datatype Principal = Principal(text: string)

  /** `Principal::anonymous()`, textually "2vxsx-fae". */
  const Anonymous: Principal := Principal("2vxsx-fae")

  datatype ApiError =
    | Unauthorized(message: string)
    | NotFound(message: string)
    | AlreadyExists(message: string)
    | InterCanister(message: string)

  type ApiResult<T> = W.Result<T, ApiError>
}

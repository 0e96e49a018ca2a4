/**
 * The idempotency key: `"UUID-"` followed by the random bytes rendered as
 * `{:02x}` (two lowercase hex digits each, zero-padded), in byte order. The
 * random bytes come from the management canister's `raw_rand`; here they are
 * an input, together with the call's failure.
 */
module Idempotency {
  import W = Wrappers
  import T = Types
  import C = Conversion

  const HexDigits: string := "0123456789abcdef"

  /** `{:x}`: `n` in lowercase hexadecimal, without leading zeros. */
  function LowerHex(n: nat): (s: string)
    ensures n < 16 ==> |s| == 1
    ensures 16 <= n < 256 ==> |s| == 2
    decreases n
  {
    if n < 16 then [HexDigits[n]] else LowerHex(n / 16) + [HexDigits[n % 16]]
  }

  /** `{:02x}`: the hex text padded with zeros on the left to width two. */
  function Hex02(b: T.u8): (r: string)
    ensures |r| == 2
  {
    var s := LowerHex(b);
    if |s| < 2 then "0" + s else s
  }

  /** `bytes.iter().map(|b| format!("{:02x}", b)).collect::<String>()`. */
  function HexOfBytes(bs: seq<T.u8>): (s: string)
    ensures |s| == 2 * |bs|
  {
    if bs == [] then "" else HexOfBytes(bs[..|bs| - 1]) + Hex02(bs[|bs| - 1])
  }

  /** `generate_idempotency_key` once the `raw_rand` call has answered. */
  function IdempotencyKey(rand: W.Result<seq<T.u8>, string>): (r: T.ApiResult<string>)
    ensures rand.Err? ==> r == W.Err(T.InterCanister("Failed to generate random number"))
    ensures rand.Ok? ==> r.Ok? && |r.value| == 5 + 2 * |rand.value| && r.value[..5] == "UUID-"
  {
    match rand
    case Ok(bytes) => W.Ok("UUID-" + HexOfBytes(bytes))
    case Err(_) => W.Err(T.InterCanister("Failed to generate random number"))
  }

  // ---------------------------------------------------------------------------

  /** The `{:x}` digit of a nybble is the digit `nybble2hex` writes. */
  lemma DigitAgrees(d: T.u8)
    requires d < 16
    ensures [HexDigits[d]] == C.Nybble2Hex(d)
  {
    if d < 10 {
      assert HexDigits[d] == ('0' as int + d) as char by {
        if d == 0 {} else if d == 1 {} else if d == 2 {} else if d == 3 {} else if d == 4 {}
        else if d == 5 {} else if d == 6 {} else if d == 7 {} else if d == 8 {} else {}
      }
    } else {
      assert HexDigits[d] == ('a' as int + d - 10) as char by {
        if d == 10 {} else if d == 11 {} else if d == 12 {} else if d == 13 {} else if d == 14 {} else {}
      }
    }
  }

  /** `{:02x}` of a byte is the two digits of the byte renderer, high nybble first. */
  lemma Hex02IsByteHex(b: T.u8)
    ensures Hex02(b) == C.ByteHex(b)
  {
    DigitAgrees(b % 16);
    DigitAgrees(b / 16);
    if b >= 16 {
      assert LowerHex(b) == LowerHex(b / 16) + [HexDigits[b % 16]];
    }
  }

  /** The bytes' rendering is the `Hex` rendering of conversion. */
  lemma {:induction false} HexOfBytesIsHexString(bs: seq<T.u8>)
    ensures HexOfBytes(bs) == C.HexString(bs)
  {
    if bs != [] {
      HexOfBytesIsHexString(bs[..|bs| - 1]);
      Hex02IsByteHex(bs[|bs| - 1]);
    }
  }

  /**
   * After `"UUID-"`, byte `k` sits at positions `5 + 2k` (high nybble) and
   * `6 + 2k` (low nybble), as lowercase hex digits.
   */
  lemma KeyLayout(bytes: seq<T.u8>, k: nat)
    requires k < |bytes|
    ensures var key := IdempotencyKey(W.Ok(bytes)).value;
      && key == "UUID-" + C.HexString(bytes)
      && C.HexDigitValue(key[5 + 2 * k]) == W.Some(bytes[k] / 16)
      && C.HexDigitValue(key[6 + 2 * k]) == W.Some(bytes[k] % 16)
  {
    HexOfBytesIsHexString(bytes);
    C.HexStringLayout(bytes);
    var hex := C.HexString(bytes);
    var key := "UUID-" + hex;
    assert key[5 + 2 * k] == hex[2 * k] && key[6 + 2 * k] == hex[2 * k + 1];
  }

  /** Different random bytes give different keys. */
  lemma KeysInjective(a: seq<T.u8>, b: seq<T.u8>)
    requires IdempotencyKey(W.Ok(a)) == IdempotencyKey(W.Ok(b))
    ensures a == b
  {
    HexOfBytesIsHexString(a);
    HexOfBytesIsHexString(b);
    var ka := IdempotencyKey(W.Ok(a)).value;
    assert ka[5..] == C.HexString(a);
    assert IdempotencyKey(W.Ok(b)).value[5..] == C.HexString(b);
    C.HexStringInjective(a, b);
  }
}

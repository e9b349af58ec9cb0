/** Shared vocabulary of all front ends and interpreters: bytes, the error type
    of the util crate, and the decimal formatting used in error messages. */
module Util {

  /** Rust's u8. */
  newtype u8 = x: int | 0 <= x < 256

  datatype Option<+T> = None | Some(value: T)

  /** The standard-library I/O failures that can reach the interpreters. */
  datatype IoError = UnexpectedEof

  /** The util crate's error type, restricted to the variants the modelled code
      produces: parse and bracket errors carry a message, I/O errors their kind. */
  datatype BfError = Bf(message: string) | Io(kind: IoError)

  /** BfResult<T>. */
  datatype Result<+T> = Ok(value: T) | Err(error: BfError)

  /** u8::wrapping_add. */
  function WrappingAdd(a: u8, b: u8): (r: u8)
    ensures r as int == (a as int + b as int) % 256
  {
    if a as int + b as int < 256 then a + b else (a as int + b as int - 256) as u8
  }

  /** u8::wrapping_sub. */
  function WrappingSub(a: u8, b: u8): (r: u8)
    ensures r as int == (a as int - b as int) % 256
  {
    if a >= b then a - b else (a as int - b as int + 256) as u8
  }

  function DigitChar(d: nat): (c: char)
    requires d < 10
    ensures '0' <= c <= '9' && (c - '0') as nat == d
  {
    ('0' as int + d) as char
  }

  /** The decimal rendering that `format!("{n}")` gives a usize. */
  function NatToString(n: nat): (s: string)
    ensures s == "0" || (|s| >= 1 && s[0] != '0')
    ensures forall i :: 0 <= i < |s| ==> '0' <= s[i] <= '9'
  {
    if n < 10 then [DigitChar(n)] else NatToString(n / 10) + [DigitChar(n % 10)]
  }

  /** Reads back a string of decimal digits. */
  function StringToNat(s: string): nat
  {
    if s == [] then 0
    else StringToNat(s[..|s| - 1]) * 10 + if '0' <= s[|s| - 1] <= '9' then (s[|s| - 1] - '0') as nat else 0
  }

  /** Formatting is injective: distinct positions give distinct messages. */
  lemma {:induction false} NatToStringRoundTrip(n: nat)
    ensures StringToNat(NatToString(n)) == n
  {
    if n >= 10 {
      var s := NatToString(n);
      assert s[..|s| - 1] == NatToString(n / 10);
      NatToStringRoundTrip(n / 10);
    }
  }
}

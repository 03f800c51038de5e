/** Types every other module uses: bytes, fixed-width integers, and the
    exceptions of the library as the error half of a Result. */
module Prelude {

  type byte = x: int | 0 <= x < 256

  type bytes = seq<byte>

  /** The range of std::uint64_t and of a std::chrono::seconds count. */
  const U64_LIMIT: int := 0x1_0000_0000_0000_0000
  const I64_LIMIT: int := 0x8000_0000_0000_0000
  type u64 = x: int | 0 <= x < 0x1_0000_0000_0000_0000
  type i64 = x: int | -0x8000_0000_0000_0000 <= x < 0x8000_0000_0000_0000

  /** static_cast<std::uint64_t> of a signed 64-bit count: reduction modulo 2^64. */
  function ToU64(x: i64): u64 {
    if x >= 0 then x else x + U64_LIMIT
  }

  /** And back: what the bits of an unsigned count are as a signed one. */
  function ToI64(x: u64): i64 {
    if x < I64_LIMIT then x else x - U64_LIMIT
  }

  datatype Option<+T> = None | Some(value: T)

  /** What a SodiumLogicError complains about. */
  datatype Reason =
    | KeySize(size: nat)
    | KeySizeAt(index: nat, keySize: nat)
    | NoKeys
    | TokenTooShort(length: nat)
    | UnknownVersion(version: byte)
    | FutureTimestamp
    | NonceReuse
    | NonceSize(nonceSize: nat)
    | StreamFinalized
    | ChunkTooShort(chunkSize: nat)

  datatype Error =
    | LogicError(reason: Reason)
    | DecodeError
    | InvalidSignature
    | ExpiredToken(age: u64)
    | RuntimeError
    | OutOfRange
    | EmptyString

  datatype Result<+T> = Ok(value: T) | Err(error: Error)

  function Repeat<T>(x: T, n: nat): (r: seq<T>)
    ensures |r| == n
    ensures forall i :: 0 <= i < n ==> r[i] == x
  {
    seq(n, i => x)
  }
}

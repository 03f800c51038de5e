/** crypto_secretbox_easy and crypto_secretbox_open_easy, as any pair of functions
    with the two properties the token format relies on. Nothing is assumed of keys
    other than the sealing one. */
module Secretbox {
  import opened Prelude

  const KEYBYTES: nat := 32
  const NONCEBYTES: nat := 24
  const MACBYTES: nat := 16

  type Key = bytes

  /** What randombytes_buf leaves in a nonce field. */
  type NonceBytes = n: bytes | |n| == 24 witness Repeat(0, 24)

  /** seal(key, nonce, message) and open(key, nonce, box); None is a nonzero return. */
  datatype Functions = Functions(
    seal: (Key, NonceBytes, bytes) -> Option<bytes>,
    open: (Key, NonceBytes, bytes) -> Option<bytes>)

  ghost predicate Lawful(f: Functions) {
    && (forall k: Key, n: NonceBytes, m: bytes :: |k| == KEYBYTES && f.seal(k, n, m).Some? ==>
          |f.seal(k, n, m).value| == |m| + MACBYTES && f.open(k, n, f.seal(k, n, m).value) == Some(m))
    && (forall k: Key, n: NonceBytes, c: bytes :: f.open(k, n, c).Some? ==> |c| == |f.open(k, n, c).value| + MACBYTES)
  }

  type Box = f: Functions | Lawful(f) witness TAGGED

  /** A lawful pair: the tag is the first half of the key. */
  const TAGGED: Functions := Functions((k, n, m) => Some(Tag(k) + m), (k, n, c) => Untag(k, c))

  function Tag(k: Key): (t: bytes)
    ensures |t| == MACBYTES
  {
    if |k| >= MACBYTES then k[..MACBYTES] else Repeat(0, MACBYTES)
  }

  function Untag(k: Key, c: bytes): (m: Option<bytes>)
    ensures forall x: bytes :: c == Tag(k) + x ==> m == Some(x)
  {
    if |c| >= MACBYTES && c[..MACBYTES] == Tag(k) then Some(c[MACBYTES..]) else None
  }
}

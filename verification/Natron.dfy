/** The Natron class: static functions over strings, keys and clocks. */
module Natron {
  import opened Prelude
  import C = Base64Codec
  import Clock
  import E = BigEndian
  import S = Secretbox
  import T = TokenFormat
  import Ttl
  import Spec = NatronSpec

  method Encrypt(box: S.Box, plaintext: bytes, key: S.Key, now: u64, draw: S.NonceBytes) returns (r: Result<string>)
    ensures r == Spec.Encrypt(box, plaintext, key, now, draw)
  {
    if |key| != S.KEYBYTES {
      return Err(LogicError(KeySize(|key|)));
    }
    var raw := T.EncryptRaw(box, plaintext, key, now, draw);
    match raw
    case Err(e) => r := Err(e);
    case Ok(bin) =>
      var text := C.Encode(bin, Spec.VARIANT);
      r := Ok(text);
  }

  method Decrypt(box: S.Box, token: string, key: S.Key, ttl: Option<i64>, now: u64) returns (r: Result<bytes>)
    ensures r == Spec.Decrypt(box, token, key, ttl, now)
  {
    if |key| != S.KEYBYTES {
      return Err(LogicError(KeySize(|key|)));
    }
    var raw := C.Decode(token, Spec.VARIANT);
    if raw.Err? {
      return Err(raw.error);
    }
    var plaintext, ts := T.DecryptRaw(box, raw.value, key, 0);
    if plaintext.Err? {
      return plaintext;
    }
    var late := Ttl.CheckSingle(ts, now, ttl);
    r := if late.Some? then Err(late.value) else plaintext;
  }

  /** The time point is None where its conversion overflows. */
  method TokenTimestamp(token: string, ticksPerSecond: nat) returns (r: Result<Option<i64>>)
    requires ticksPerSecond > 0
    ensures r == match Spec.TokenTimestamp(token)
      case Err(e) => Err(e)
      case Ok(ts) => Ok(Clock.TimePoint(ts, ticksPerSecond))
  {
    var raw := C.Decode(token, Spec.VARIANT);
    if raw.Err? {
      return Err(raw.error);
    }
    if |raw.value| < T.MIN_TOKEN_BYTES {
      return Err(LogicError(TokenTooShort(|raw.value|)));
    }
    if raw.value[0] != T.VERSION {
      return Err(LogicError(UnknownVersion(raw.value[0])));
    }
    var ts := E.ReadU64Be(raw.value[T.VERSION_SIZE..T.VERSION_SIZE + T.TIMESTAMP_SIZE]);
    r := Ok(Clock.TimePoint(ts, ticksPerSecond));
  }
}

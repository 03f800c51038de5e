/** The NatronMultiKey class: an ordered, immutable list of keys. */
module NatronMultiKey {
  import opened Prelude
  import C = Base64Codec
  import S = Secretbox
  import T = TokenFormat
  import Ttl
  import Natron
  import Spec = NatronSpec

  datatype RawRing = RawRing(keys: seq<S.Key>)

  type Ring = r: RawRing | Spec.ValidKeys(r.keys) witness RawRing([Repeat(0, S.KEYBYTES)])

  ghost predicate FirstBadKey(keys: seq<S.Key>, i: int) {
    && 0 <= i < |keys|
    && |keys[i]| != S.KEYBYTES
    && forall j :: 0 <= j < i ==> |keys[j]| == S.KEYBYTES
  }

  /** The constructor; a rejected list is reported by its first key of wrong size. */
  method Create(keys: seq<S.Key>) returns (r: Result<Ring>)
    ensures r.Ok? <==> Spec.ValidKeys(keys)
    ensures r.Ok? ==> r.value.keys == keys
    ensures keys == [] ==> r == Err(LogicError(NoKeys))
    ensures forall i :: FirstBadKey(keys, i) ==> r == Err(LogicError(KeySizeAt(i, |keys[i]|)))
  {
    if keys == [] {
      return Err(LogicError(NoKeys));
    }
    for i := 0 to |keys|
      invariant forall j :: 0 <= j < i ==> |keys[j]| == S.KEYBYTES
    {
      if |keys[i]| != S.KEYBYTES {
        return Err(LogicError(KeySizeAt(i, |keys[i]|)));
      }
    }
    r := Ok(RawRing(keys));
  }

  method Encrypt(box: S.Box, ring: Ring, plaintext: bytes, now: u64, draw: S.NonceBytes) returns (r: Result<string>)
    ensures r == Spec.Encrypt(box, plaintext, ring.keys[0], now, draw)
  {
    r := Natron.Encrypt(box, plaintext, ring.keys[0], now, draw);
  }

  /** Tries the keys in order; ts is overwritten on every try. */
  method Decrypt(box: S.Box, ring: Ring, token: string, ttl: Option<i64>, now: u64) returns (r: Result<bytes>)
    ensures r == Spec.RingDecrypt(box, ring.keys, token, ttl, now)
  {
    var raw := C.Decode(token, Spec.VARIANT);
    if raw.Err? {
      return Err(raw.error);
    }
    var ts: u64 := 0;
    for i := 0 to |ring.keys|
      invariant Spec.RingOpen(box, ring.keys[i..], raw.value, ttl, now)
        == Spec.RingOpen(box, ring.keys, raw.value, ttl, now)
    {
      var plaintext;
      plaintext, ts := T.DecryptRaw(box, raw.value, ring.keys[i], ts);
      if plaintext.Ok? {
        var late := Ttl.CheckRing(ts, now, ttl);
        return if late.Some? then Err(late.value) else plaintext;
      } else if plaintext.error != InvalidSignature {
        return plaintext;
      }
      assert ring.keys[i..][1..] == ring.keys[i + 1..];
    }
    r := Err(InvalidSignature);
  }

  method Rotate(box: S.Box, ring: Ring, token: string, ttl: Option<i64>, now: u64, now': u64, draw: S.NonceBytes)
    returns (r: Result<string>)
    ensures r == Spec.Rotate(box, ring.keys, token, ttl, now, now', draw)
  {
    var plaintext := Decrypt(box, ring, token, ttl, now);
    match plaintext
    case Err(e) => r := Err(e);
    case Ok(p) => r := Encrypt(box, ring, p, now', draw);
  }
}

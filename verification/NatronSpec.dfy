/** What the Natron functions compute, token strings included, and the properties of
    single-key and ring decryption. Clock readings and random draws are parameters. */
module NatronSpec {
  import opened Prelude
  import B = Base64
  import E = BigEndian
  import S = Secretbox
  import T = TokenFormat
  import Ttl

  /** Natron calls the codec with its default variant: padded standard Base64. */
  const VARIANT: B.Variant := B.Original

  ghost function Encrypt(box: S.Box, p: bytes, key: S.Key, now: u64, draw: S.NonceBytes): Result<string> {
    match T.Seal(box, p, key, now, draw)
    case Err(e) => Err(e)
    case Ok(raw) => Ok(B.Encode(raw, VARIANT))
  }

  ghost function Decrypt(box: S.Box, token: string, key: S.Key, ttl: Option<i64>, now: u64): Result<bytes> {
    if |key| != S.KEYBYTES then Err(LogicError(KeySize(|key|)))
    else match B.Decode(token, VARIANT)
      case None => Err(DecodeError)
      case Some(raw) =>
        match T.Open(box, raw, key)
        case Err(e) => Err(e)
        case Ok(p) => Checked(p, Ttl.SingleCheck(T.Parse(raw).value.ts, now, ttl))
  }

  ghost function Checked(p: bytes, verdict: Option<Error>): Result<bytes> {
    match verdict
    case None => Ok(p)
    case Some(e) => Err(e)
  }

  ghost function TokenTimestamp(token: string): Result<u64> {
    match B.Decode(token, VARIANT)
    case None => Err(DecodeError)
    case Some(raw) =>
      match T.Parse(raw)
      case Err(e) => Err(e)
      case Ok(f) => Ok(f.ts)
  }

  /** Keys are tried in order; only a failed authentication moves on to the next. */
  ghost function RingOpen(box: S.Box, keys: seq<S.Key>, raw: bytes, ttl: Option<i64>, now: u64): Result<bytes> {
    if keys == [] then Err(InvalidSignature)
    else match T.Open(box, raw, keys[0])
      case Ok(p) => Checked(p, Ttl.RingCheck(T.Parse(raw).value.ts, now, ttl))
      case Err(e) => if e == InvalidSignature then RingOpen(box, keys[1..], raw, ttl, now) else Err(e)
  }

  ghost function RingDecrypt(box: S.Box, keys: seq<S.Key>, token: string, ttl: Option<i64>, now: u64): Result<bytes> {
    match B.Decode(token, VARIANT)
    case None => Err(DecodeError)
    case Some(raw) => RingOpen(box, keys, raw, ttl, now)
  }

  ghost predicate ValidKeys(keys: seq<S.Key>) {
    keys != [] && forall i :: 0 <= i < |keys| ==> |keys[i]| == S.KEYBYTES
  }

  /** rotate reads the clock twice: for the TTL, and for the new token. */
  ghost function Rotate(box: S.Box, keys: seq<S.Key>, token: string, ttl: Option<i64>,
                        now: u64, now': u64, draw: S.NonceBytes): Result<string>
    requires ValidKeys(keys)
  {
    match RingDecrypt(box, keys, token, ttl, now)
    case Err(e) => Err(e)
    case Ok(p) => Encrypt(box, p, keys[0], now', draw)
  }

  // ------------------------------------------------------------- round trip

  /** A fresh token is a string of known length that stands for one binary token. */
  lemma FreshToken(box: S.Box, p: bytes, key: S.Key, now: u64, draw: S.NonceBytes)
    requires Encrypt(box, p, key, now, draw).Ok?
    ensures var token := Encrypt(box, p, key, now, draw).value;
      && B.Decode(token, VARIANT) == Some(T.Seal(box, p, key, now, draw).value)
      && |token| == 4 * ((T.OVERHEAD + |p| + 2) / 3)
  {
    var raw := T.Seal(box, p, key, now, draw).value;
    T.SealOpens(box, p, key, now, draw);
    B.DecodeInvertsEncode(B.Encode(raw, VARIANT), raw, VARIANT);
    B.EncodedLenExact(raw, VARIANT);
  }

  /** Encryption fails only for a wrong key size or when the primitive does; otherwise
      the token decrypts to the plaintext, shows the encryption time, and under a TTL is
      accepted exactly while fresh. */
  lemma RoundTrip(box: S.Box, p: bytes, key: S.Key, now: u64, draw: S.NonceBytes)
    ensures Encrypt(box, p, key, now, draw).Ok? <==> |key| == S.KEYBYTES && box.seal(key, draw, p).Some?
    ensures Encrypt(box, p, key, now, draw).Ok? ==>
      var token := Encrypt(box, p, key, now, draw).value;
      && |token| == 4 * ((49 + |p| + 2) / 3)
      && TokenTimestamp(token) == Ok(now)
      && (forall clock: u64 :: Decrypt(box, token, key, None, clock) == Ok(p))
      && (forall clock: u64, ttl: i64 :: Ttl.NoWrap(clock, ttl) ==>
            (Decrypt(box, token, key, Some(ttl), clock) == Ok(p) <==> now - 60 <= clock <= now + ttl))
  {
    if Encrypt(box, p, key, now, draw).Ok? {
      FreshToken(box, p, key, now, draw);
      T.SealOpens(box, p, key, now, draw);
      var token, raw := Encrypt(box, p, key, now, draw).value, T.Seal(box, p, key, now, draw).value;
      forall clock: u64, ttl: Option<i64>
        ensures Decrypt(box, token, key, ttl, clock) == Checked(p, Ttl.SingleCheck(now, clock, ttl))
      {
        DecryptOpened(box, token, raw, p, key, ttl, clock);
      }
      forall clock: u64, ttl: i64 | Ttl.NoWrap(clock, ttl)
        ensures Decrypt(box, token, key, Some(ttl), clock) == Ok(p) <==> now - 60 <= clock <= now + ttl
      {
        Ttl.TtlWindow(now, clock, ttl);
      }
    }
  }

  lemma DecryptOpened(box: S.Box, token: string, raw: bytes, p: bytes, key: S.Key, ttl: Option<i64>, now: u64)
    requires B.Decode(token, VARIANT) == Some(raw) && T.Open(box, raw, key) == Ok(p) && |key| == S.KEYBYTES
    ensures Decrypt(box, token, key, ttl, now) == Checked(p, Ttl.SingleCheck(T.Parse(raw).value.ts, now, ttl))
    ensures TokenTimestamp(token) == Ok(T.Parse(raw).value.ts)
  {
  }

  // ------------------------------------------------------------ every outcome

  /** token is the text of raw: padded standard Base64. */
  ghost predicate Stands(token: string, raw: bytes) {
    B.Rfc4648(token, raw, B.Original)
  }

  /** What encrypt reports when it fails. */
  lemma EncryptFails(box: S.Box, p: bytes, key: S.Key, now: u64, draw: S.NonceBytes)
    ensures |key| != 32 ==> Encrypt(box, p, key, now, draw) == Err(LogicError(KeySize(|key|)))
    ensures |key| == 32 && box.seal(key, draw, p) == None ==> Encrypt(box, p, key, now, draw) == Err(RuntimeError)
  {
  }

  lemma StandsForOne(token: string, raw: bytes)
    requires Stands(token, raw)
    ensures B.Decode(token, VARIANT) == Some(raw)
  {
    B.EncodeIsRfc4648(token, raw, VARIANT);
    B.DecodeInvertsEncode(token, raw, VARIANT);
  }

  lemma StandsForNone(token: string)
    requires forall raw: bytes :: !Stands(token, raw)
    ensures B.Decode(token, VARIANT) == None
  {
    if B.Decode(token, VARIANT).Some? {
      var raw := B.Decode(token, VARIANT).value;
      B.DecodeInvertsEncode(token, raw, VARIANT);
      B.EncodeIsRfc4648(token, raw, VARIANT);
      assert Stands(token, raw);
    }
  }

  /** The errors of a token that is none: text that stands for no bytes, ... */
  lemma UndecodableTokens(box: S.Box, token: string, key: S.Key, keys: seq<S.Key>, ttl: Option<i64>, now: u64)
    requires forall raw: bytes :: !Stands(token, raw)
    ensures Decrypt(box, token, key, ttl, now)
      == Err(if |key| != 32 then LogicError(KeySize(|key|)) else DecodeError)
    ensures RingDecrypt(box, keys, token, ttl, now) == Err(DecodeError)
    ensures TokenTimestamp(token) == Err(DecodeError)
  {
    StandsForNone(token);
  }

  /** ... fewer than 49 bytes, or a version byte other than 1. Each function reports the
      same, whatever the key, except that a wrong key size comes first. */
  lemma MalformedTokens(box: S.Box, token: string, raw: bytes, key: S.Key, keys: seq<S.Key>, ttl: Option<i64>, now: u64)
    requires Stands(token, raw) && (|raw| < 49 || raw[0] != 1) && keys != []
    ensures var reason := if |raw| < 49 then TokenTooShort(|raw|) else UnknownVersion(raw[0]);
      && Decrypt(box, token, key, ttl, now) == Err(LogicError(if |key| != 32 then KeySize(|key|) else reason))
      && RingDecrypt(box, keys, token, ttl, now) == Err(LogicError(reason))
      && TokenTimestamp(token) == Err(LogicError(reason))
  {
    StandsForOne(token, raw);
  }

  /** Of every other token the primitive decides: it is refused as an invalid signature if
      that does not open it, and else is as old as its bytes 1 to 8 say. */
  lemma WellFormedTokens(box: S.Box, token: string, raw: bytes, key: S.Key, ttl: Option<i64>, now: u64)
    requires Stands(token, raw) && |raw| >= 49 && raw[0] == 1
    ensures Decrypt(box, token, key, ttl, now) ==
      if |key| != 32 then Err(LogicError(KeySize(|key|)))
      else match box.open(key, raw[9..33], raw[33..])
        case None => Err(InvalidSignature)
        case Some(p) => Checked(p, Ttl.SingleCheck(E.ReadU64Be(raw[1..9]), now, ttl))
    ensures TokenTimestamp(token) == Ok(E.ReadU64Be(raw[1..9]))
  {
    StandsForOne(token, raw);
  }

  /** token is the one string the fields f are written as. */
  ghost predicate Writes(token: string, f: T.Fields) {
    |f.body| >= S.MACBYTES && B.Encode(T.Print(f), VARIANT) == token
  }

  /** The strings accepted as tokens are exactly those some fields are written as, one
      string for each, and what is read is what was written. */
  lemma TokensAreWrittenFields(token: string)
    ensures TokenTimestamp(token).Ok? <==> exists f :: Writes(token, f)
    ensures forall f :: Writes(token, f) ==> TokenTimestamp(token) == Ok(f.ts)
    ensures forall f, g :: Writes(token, f) && Writes(token, g) ==> f == g
  {
    forall f: T.Fields | Writes(token, f)
      ensures B.Decode(token, VARIANT) == Some(T.Print(f)) && T.Parse(T.Print(f)) == Ok(f)
    {
      B.DecodeInvertsEncode(token, T.Print(f), VARIANT);
      T.ParsePrint(f);
    }
    if TokenTimestamp(token).Ok? {
      var raw := B.Decode(token, VARIANT).value;
      B.DecodeInvertsEncode(token, raw, VARIANT);
      T.PrintParse(raw);
      assert Writes(token, T.Parse(raw).value);
    }
  }

  /** The timestamp that can be read without the key is the one the TTL check uses. */
  lemma TimestampAgrees(box: S.Box, token: string, key: S.Key, ttl: Option<i64>, now: u64)
    requires Decrypt(box, token, key, None, now).Ok?
    ensures TokenTimestamp(token).Ok?
    ensures Decrypt(box, token, key, ttl, now)
         == Checked(Decrypt(box, token, key, None, now).value, Ttl.SingleCheck(TokenTimestamp(token).value, now, ttl))
  {
  }

  // ---------------------------------------------------------------- the ring

  /** Key i opens the token and no key before it does. */
  ghost predicate FirstOpener(box: S.Box, keys: seq<S.Key>, raw: bytes, i: int) {
    && 0 <= i < |keys|
    && T.Open(box, raw, keys[i]).Ok?
    && forall j :: 0 <= j < i ==> T.Open(box, raw, keys[j]).Err?
  }

  /** The key loop finds the first key that opens the token. It reports an invalid
      signature exactly for well-formed tokens no key opens; malformed tokens are
      reported the same way whatever the ring. */
  lemma {:induction false} RingIsFirstMatch(box: S.Box, keys: seq<S.Key>, raw: bytes, ttl: Option<i64>, now: u64)
    requires keys != []
    ensures T.Parse(raw).Err? ==> RingOpen(box, keys, raw, ttl, now) == Err(T.Parse(raw).error)
    ensures RingOpen(box, keys, raw, ttl, now) == Err(InvalidSignature)
      <==> T.Parse(raw).Ok? && forall i :: 0 <= i < |keys| ==> T.Open(box, raw, keys[i]).Err?
    ensures forall i :: FirstOpener(box, keys, raw, i) ==>
      RingOpen(box, keys, raw, ttl, now)
        == Checked(T.Open(box, raw, keys[i]).value, Ttl.RingCheck(T.Parse(raw).value.ts, now, ttl))
    ensures RingOpen(box, keys, raw, ttl, now).Ok? ==> exists i :: FirstOpener(box, keys, raw, i)
  {
    if T.Open(box, raw, keys[0]).Ok? {
      assert FirstOpener(box, keys, raw, 0);
    } else if T.Parse(raw).Ok? {
      var rest := keys[1..];
      assert forall j :: 0 <= j < |rest| ==> rest[j] == keys[j + 1];
      if rest == [] {
        assert keys == [keys[0]];
      } else {
        RingIsFirstMatch(box, rest, raw, ttl, now);
        forall i | FirstOpener(box, keys, raw, i)
          ensures i > 0 && FirstOpener(box, rest, raw, i - 1)
        {
        }
        if RingOpen(box, keys, raw, ttl, now).Ok? {
          var i :| FirstOpener(box, rest, raw, i);
          assert FirstOpener(box, keys, raw, i + 1) by {
            forall j | 0 <= j < i + 1
              ensures T.Open(box, raw, keys[j]).Err?
            {
              assert j > 0 ==> keys[j] == rest[j - 1];
            }
          }
        }
        if forall i :: 0 <= i < |rest| ==> T.Open(box, raw, rest[i]).Err? {
          forall i | 0 <= i < |keys|
            ensures T.Open(box, raw, keys[i]).Err?
          {
            assert i > 0 ==> keys[i] == rest[i - 1];
          }
        }
      }
    }
  }

  /** The tokens on which a ring of one key and the single-key function differ: a TTL is
      given, the token opens, and its timestamp is past the tolerance, which only the
      single-key function checks. */
  ghost predicate FutureToken(box: S.Box, token: string, key: S.Key, ttl: Option<i64>, now: u64) {
    && ttl.Some?
    && Decrypt(box, token, key, None, now).Ok?
    && TokenTimestamp(token).value > (now + Ttl.CLOCK_SKEW_TOLERANCE_SECS) % U64_LIMIT
  }

  lemma SingleVersusRing(box: S.Box, token: string, key: S.Key, ttl: Option<i64>, now: u64)
    requires |key| == S.KEYBYTES
    ensures Decrypt(box, token, key, ttl, now) == RingDecrypt(box, [key], token, ttl, now)
      <==> !FutureToken(box, token, key, ttl, now)
    ensures FutureToken(box, token, key, ttl, now) ==>
      Decrypt(box, token, key, ttl, now) == Err(LogicError(FutureTimestamp))
    ensures FutureToken(box, token, key, ttl, now) ==>
      var age := Ttl.Age(TokenTimestamp(token).value, now);
      && RingDecrypt(box, [key], token, ttl, now)
           == (if age <= ToU64(ttl.value) then Decrypt(box, token, key, None, now) else Err(ExpiredToken(age)))
      && (Ttl.NoWrap(now, ttl.value) ==> age == 0)
  {
    if B.Decode(token, VARIANT).Some? {
      var raw := B.Decode(token, VARIANT).value;
      OneKeyRing(box, raw, key, ttl, now);
      if T.Open(box, raw, key).Ok? {
        DecryptOpened(box, token, raw, T.Open(box, raw, key).value, key, ttl, now);
        DecryptOpened(box, token, raw, T.Open(box, raw, key).value, key, None, now);
        OnlyFutureDiffers(T.Open(box, raw, key).value, T.Parse(raw).value.ts, now, ttl);
      }
    }
  }

  lemma OneKeyRing(box: S.Box, raw: bytes, key: S.Key, ttl: Option<i64>, now: u64)
    ensures RingOpen(box, [key], raw, ttl, now) == match T.Open(box, raw, key)
      case Ok(p) => Checked(p, Ttl.RingCheck(T.Parse(raw).value.ts, now, ttl))
      case Err(e) => Err(e)
  {
  }

  lemma OnlyFutureDiffers(p: bytes, ts: u64, now: u64, ttl: Option<i64>)
    ensures Checked(p, Ttl.SingleCheck(ts, now, ttl)) == Checked(p, Ttl.RingCheck(ts, now, ttl))
      <==> !(ttl.Some? && ts > (now + Ttl.CLOCK_SKEW_TOLERANCE_SECS) % U64_LIMIT)
    ensures ttl.Some? && Ttl.NoWrap(now, ttl.value) && ts > (now + Ttl.CLOCK_SKEW_TOLERANCE_SECS) % U64_LIMIT
      ==> Ttl.Age(ts, now) == 0
  {
  }

  /** There are such tokens: any that is sealed at a clock ahead of the reader's by more
      than the tolerance. */
  lemma FutureTokensExist(box: S.Box, p: bytes, key: S.Key, at: u64, draw: S.NonceBytes, now: u64, ttl: i64)
    requires Encrypt(box, p, key, at, draw).Ok? && at > now + Ttl.CLOCK_SKEW_TOLERANCE_SECS
    ensures FutureToken(box, Encrypt(box, p, key, at, draw).value, key, Some(ttl), now)
  {
    RoundTrip(box, p, key, at, draw);
    Ttl.FutureIsNotWrapped(at, now);
  }

  // ---------------------------------------------- what the seal leaves open

  /** Every token can be given any timestamp, as another token of the same length that
      opens under the same keys to the same plaintext; its age is then counted from that
      timestamp by both decryption functions. So the TTL bounds the age a token states,
      not the time since it was sealed. */
  lemma StatedAgeOnly(box: S.Box, token: string, ts: u64)
    requires TokenTimestamp(token).Ok?
    ensures var token' := B.Encode(T.Restamped(B.Decode(token, VARIANT).value, ts), VARIANT);
      && |token'| == |token| && TokenTimestamp(token') == Ok(ts)
      && (forall key: S.Key, ttl: Option<i64>, now: u64 :: Decrypt(box, token, key, None, now).Ok? ==>
            Decrypt(box, token', key, ttl, now)
              == Checked(Decrypt(box, token, key, None, now).value, Ttl.SingleCheck(ts, now, ttl)))
      && (forall keys: seq<S.Key>, ttl: Option<i64>, now: u64 :: RingDecrypt(box, keys, token, None, now).Ok? ==>
            RingDecrypt(box, keys, token', ttl, now)
              == Checked(RingDecrypt(box, keys, token, None, now).value, Ttl.RingCheck(ts, now, ttl)))
  {
    var raw := B.Decode(token, VARIANT).value;
    var raw' := T.Restamped(raw, ts);
    var token' := B.Encode(raw', VARIANT);
    B.DecodeInvertsEncode(token', raw', VARIANT);
    B.DecodeInvertsEncode(token, raw, VARIANT);
    B.EncodedLenExact(raw, VARIANT);
    B.EncodedLenExact(raw', VARIANT);
    T.OpenIgnoresTimestamp(box, raw, [], ts);
    forall key: S.Key, ttl: Option<i64>, now: u64 | Decrypt(box, token, key, None, now).Ok?
      ensures Decrypt(box, token', key, ttl, now)
        == Checked(Decrypt(box, token, key, None, now).value, Ttl.SingleCheck(ts, now, ttl))
    {
      T.OpenIgnoresTimestamp(box, raw, key, ts);
      DecryptOpened(box, token', raw', T.Open(box, raw, key).value, key, ttl, now);
    }
    forall keys: seq<S.Key>, ttl: Option<i64>, now: u64 | RingDecrypt(box, keys, token, None, now).Ok?
      ensures RingDecrypt(box, keys, token', ttl, now)
        == Checked(RingDecrypt(box, keys, token, None, now).value, Ttl.RingCheck(ts, now, ttl))
    {
      RingRestamped(box, keys, raw, ts, ttl, now);
    }
  }

  lemma {:induction false} RingRestamped(box: S.Box, keys: seq<S.Key>, raw: bytes, ts: u64, ttl: Option<i64>, now: u64)
    requires T.Parse(raw).Ok? && RingOpen(box, keys, raw, None, now).Ok?
    ensures RingOpen(box, keys, T.Restamped(raw, ts), ttl, now)
      == Checked(RingOpen(box, keys, raw, None, now).value, Ttl.RingCheck(ts, now, ttl))
  {
    T.OpenIgnoresTimestamp(box, raw, keys[0], ts);
    if T.Open(box, raw, keys[0]).Err? {
      RingRestamped(box, keys[1..], raw, ts, ttl, now);
    }
  }

  /** What a ring can read at all, it reads under a TTL as long as the stated age allows. */
  lemma RingAge(box: S.Box, keys: seq<S.Key>, token: string, ttl: Option<i64>, now: u64, now': u64)
    requires RingDecrypt(box, keys, token, None, now).Ok?
    ensures TokenTimestamp(token).Ok?
    ensures RingDecrypt(box, keys, token, ttl, now')
      == Checked(RingDecrypt(box, keys, token, None, now).value, Ttl.RingCheck(TokenTimestamp(token).value, now', ttl))
  {
    var raw := B.Decode(token, VARIANT).value;
    RingIsFirstMatch(box, keys, raw, None, now);
    RingIsFirstMatch(box, keys, raw, ttl, now');
  }

  /** In particular, for every token that opens and every TTL, some token of the same
      length for the same plaintext is accepted. */
  lemma SomeStatedAgeIsAccepted(box: S.Box, token: string, key: S.Key, p: bytes, now: u64, ttl: i64)
    requires Decrypt(box, token, key, None, now) == Ok(p) && Ttl.NoWrap(now, ttl)
    ensures exists token' :: |token'| == |token| && Decrypt(box, token', key, Some(ttl), now) == Ok(p)
  {
    var token' := B.Encode(T.Restamped(B.Decode(token, VARIANT).value, now), VARIANT);
    StatedAgeOnly(box, token, now);
    Ttl.TtlWindow(now, now, ttl);
    assert Decrypt(box, token', key, Some(ttl), now) == Checked(p, Ttl.SingleCheck(now, now, Some(ttl)));
  }

  /** A token sealed at 0 and read at 1000 with a TTL of 300 is expired; stating 1000 as
      its timestamp it is not. */
  lemma StatedAgeExample(box: S.Box, p: bytes, key: S.Key, draw: S.NonceBytes)
    requires Encrypt(box, p, key, 0, draw).Ok?
    ensures var token := Encrypt(box, p, key, 0, draw).value;
      && TokenTimestamp(token).Ok?
      && Decrypt(box, token, key, Some(300), 1000) == Err(ExpiredToken(1000))
      && var token' := B.Encode(T.Restamped(B.Decode(token, VARIANT).value, 1000), VARIANT);
        Decrypt(box, token', key, Some(300), 1000) == Ok(p)
  {
    RoundTrip(box, p, key, 0, draw);
    var token := Encrypt(box, p, key, 0, draw).value;
    assert Decrypt(box, token, key, None, 1000) == Ok(p);
    TimestampAgrees(box, token, key, Some(300), 1000);
    StatedAgeOnly(box, token, 1000);
    Ttl.ExpiryExample();
  }

  // ----------------------------------------------------------- text variants

  /** The documentation has tokens in URL-safe Base64 without padding. The token is that
      exactly when its bytes are a multiple of three and need neither of the two special
      characters; and a token in another variant is accepted exactly when it is the text
      of the default one. */
  lemma TokenTextVariants(raw: bytes, w: B.Variant)
    requires T.Parse(raw).Ok?
    ensures B.Encode(raw, VARIANT) == B.Encode(raw, w) <==> B.Common(raw, VARIANT, w)
    ensures TokenTimestamp(B.Encode(raw, w))
      == if B.Common(raw, w, VARIANT) then Ok(T.Parse(raw).value.ts) else Err(DecodeError)
    ensures B.Common(raw, VARIANT, B.UrlSafeNoPadding) <==> |raw| % 3 == 0 && B.NoSpecials(raw)
  {
    B.VariantMismatch(raw, VARIANT, w);
    B.VariantMismatch(raw, w, VARIANT);
  }

  // -------------------------------------------------------------- rotation

  /** rotate refuses what decryption under its TTL refuses, with the same error, whichever
      key opens the token: text that is no token, a token no key opens, an expired one. */
  lemma RotateRefuses(box: S.Box, keys: seq<S.Key>, token: string, ttl: Option<i64>, now: u64, now': u64,
                      draw: S.NonceBytes)
    requires ValidKeys(keys)
    ensures (forall raw: bytes :: !Stands(token, raw)) ==>
      Rotate(box, keys, token, ttl, now, now', draw) == Err(DecodeError)
    ensures forall raw: bytes :: Stands(token, raw) ==>
      && (|raw| < 49 ==> Rotate(box, keys, token, ttl, now, now', draw) == Err(LogicError(TokenTooShort(|raw|))))
      && (|raw| >= 49 && raw[0] != 1 ==>
            Rotate(box, keys, token, ttl, now, now', draw) == Err(LogicError(UnknownVersion(raw[0]))))
      && (T.Parse(raw).Ok? && (forall i :: 0 <= i < |keys| ==> T.Open(box, raw, keys[i]).Err?) ==>
            Rotate(box, keys, token, ttl, now, now', draw) == Err(InvalidSignature))
      && (forall i :: FirstOpener(box, keys, raw, i) && Ttl.RingCheck(T.Parse(raw).value.ts, now, ttl).Some? ==>
            Rotate(box, keys, token, ttl, now, now', draw)
              == Err(Ttl.RingCheck(T.Parse(raw).value.ts, now, ttl).value))
  {
    if forall raw: bytes :: !Stands(token, raw) {
      StandsForNone(token);
    }
    forall raw: bytes | Stands(token, raw)
      ensures B.Decode(token, VARIANT) == Some(raw)
    {
      StandsForOne(token, raw);
    }
    if B.Decode(token, VARIANT).Some? {
      RingIsFirstMatch(box, keys, B.Decode(token, VARIANT).value, ttl, now);
    }
  }

  /** And it re-encrypts what decryption accepts, unless the primitive fails. */
  lemma RotateAccepts(box: S.Box, keys: seq<S.Key>, token: string, ttl: Option<i64>, now: u64, now': u64,
                      draw: S.NonceBytes, p: bytes)
    requires ValidKeys(keys) && RingDecrypt(box, keys, token, ttl, now) == Ok(p)
    ensures match box.seal(keys[0], draw, p)
      case None => Rotate(box, keys, token, ttl, now, now', draw) == Err(RuntimeError)
      case Some(body) =>
        && Rotate(box, keys, token, ttl, now, now', draw).Ok?
        && Stands(Rotate(box, keys, token, ttl, now, now', draw).value, T.Print(T.Fields(now', draw, body)))
  {
    if box.seal(keys[0], draw, p).Some? {
      var raw := T.Print(T.Fields(now', draw, box.seal(keys[0], draw, p).value));
      B.EncodeIsRfc4648(B.Encode(raw, VARIANT), raw, VARIANT);
    }
  }

  /** A rotated token is a token of its own: it opens to the plaintext under the active
      key, carries the rotation time, and under a TTL is accepted by the ring exactly
      until it is older than that, whatever the age of the token it replaces. */
  lemma RotationResetsAge(box: S.Box, keys: seq<S.Key>, token: string, ttl: Option<i64>, now: u64, now': u64,
                          draw: S.NonceBytes, p: bytes)
    requires ValidKeys(keys) && RingDecrypt(box, keys, token, ttl, now) == Ok(p)
    requires Rotate(box, keys, token, ttl, now, now', draw).Ok?
    ensures var token' := Rotate(box, keys, token, ttl, now, now', draw).value;
      && TokenTimestamp(token') == Ok(now')
      && (forall clock: u64 :: RingDecrypt(box, keys, token', None, clock) == Ok(p))
      && (forall clock: u64, ttl': i64 :: ttl' >= 0 ==>
            RingDecrypt(box, keys, token', Some(ttl'), clock)
              == if clock - now' <= ttl' then Ok(p) else Err(ExpiredToken(clock - now')))
  {
    FreshToken(box, p, keys[0], now', draw);
    T.SealOpens(box, p, keys[0], now', draw);
  }
}

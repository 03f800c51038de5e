/** The binary token: [ version | timestamp | nonce | MAC and ciphertext ], with its
    printer, its parser, and what sealing and opening a token mean. */
module TokenFormat {
  import opened Prelude
  import E = BigEndian
  import S = Secretbox

  const VERSION: byte := 0x01
  const VERSION_SIZE: nat := 1
  const TIMESTAMP_SIZE: nat := 8
  const HEADER_SIZE: nat := VERSION_SIZE + TIMESTAMP_SIZE + S.NONCEBYTES
  const OVERHEAD: nat := HEADER_SIZE + S.MACBYTES
  const MIN_TOKEN_BYTES: nat := OVERHEAD

  datatype Fields = Fields(ts: u64, nonce: S.NonceBytes, body: bytes)

  function Print(f: Fields): bytes {
    [VERSION] + E.Digits(f.ts, TIMESTAMP_SIZE) + f.nonce + f.body
  }

  /** What is wrong with a token whatever the key. */
  function Malformed(raw: bytes): Option<Error> {
    if |raw| < MIN_TOKEN_BYTES then Some(LogicError(TokenTooShort(|raw|)))
    else if raw[0] != VERSION then Some(LogicError(UnknownVersion(raw[0])))
    else None
  }

  function Parse(raw: bytes): Result<Fields> {
    match Malformed(raw)
    case Some(e) => Err(e)
    case None => Ok(Fields(E.ReadU64Be(raw[1..9]), raw[9..33], raw[33..]))
  }

  /** Printing then parsing gives the fields back. */
  lemma ParsePrint(f: Fields)
    requires |f.body| >= S.MACBYTES
    ensures Parse(Print(f)) == Ok(f)
  {
    var raw := Print(f);
    assert raw[1..9] == E.Digits(f.ts, 8);
    assert raw[9..33] == f.nonce;
    assert raw[33..] == f.body;
    E.TimestampCodec(f.ts, E.Digits(f.ts, 8));
  }

  /** Every byte of a token that parses is in one of its fields. */
  lemma PrintParse(raw: bytes)
    requires Parse(raw).Ok?
    ensures Print(Parse(raw).value) == raw
  {
    E.TimestampCodec(0, raw[1..9]);
    assert raw == [raw[0]] + raw[1..9] + raw[9..33] + raw[33..];
  }

  /** The token for plaintext p sealed at time now. Only nonce and p go into the seal:
      neither version nor timestamp is authenticated. */
  function Seal(box: S.Box, p: bytes, key: S.Key, now: u64, nonce: S.NonceBytes): Result<bytes> {
    if |key| != S.KEYBYTES then Err(LogicError(KeySize(|key|)))
    else match box.seal(key, nonce, p)
      case None => Err(RuntimeError)
      case Some(body) => Ok(Print(Fields(now, nonce, body)))
  }

  function Open(box: S.Box, raw: bytes, key: S.Key): Result<bytes> {
    match Malformed(raw)
    case Some(e) => Err(e)
    case None =>
      match box.open(key, raw[9..33], raw[33..])
      case None => Err(InvalidSignature)
      case Some(p) => Ok(p)
  }

  /** A sealed token has exactly OVERHEAD bytes more than its plaintext, laid out as
      documented: version 1, the sealing time in big-endian, the nonce, the box. It
      opens to the plaintext. */
  lemma SealOpens(box: S.Box, p: bytes, key: S.Key, now: u64, nonce: S.NonceBytes)
    requires Seal(box, p, key, now, nonce).Ok?
    ensures var raw := Seal(box, p, key, now, nonce).value;
      && |raw| == 49 + |p|
      && raw[0] == 0x01 && E.Value(raw[1..9]) == now && raw[9..33] == nonce
      && Some(raw[33..]) == box.seal(key, nonce, p)
      && Parse(raw).Ok? && Parse(raw).value.ts == now
      && Open(box, raw, key) == Ok(p)
  {
    var f := Fields(now, nonce, box.seal(key, nonce, p).value);
    ParsePrint(f);
    E.EightBytes(Print(f)[1..9]);
  }

  /** Short and foreign-version tokens are rejected the same way under every key. */
  lemma MalformedUnderEveryKey(box: S.Box, raw: bytes, key: S.Key)
    ensures Open(box, raw, key).Err? ==>
      (Open(box, raw, key).error == InvalidSignature <==> Parse(raw).Ok?)
    ensures Parse(raw).Err? ==> Open(box, raw, key) == Err(Parse(raw).error)
  {
  }

  /** The token with its timestamp replaced. */
  function Restamped(raw: bytes, ts: u64): bytes
    requires Parse(raw).Ok?
  {
    Print(Parse(raw).value.(ts := ts))
  }

  /** The documentation lists the timestamp as authenticated. It is not: under every key
      a token opens the same, or fails the same, whatever timestamp it is given. */
  lemma OpenIgnoresTimestamp(box: S.Box, raw: bytes, key: S.Key, ts: u64)
    requires Parse(raw).Ok?
    ensures var raw' := Restamped(raw, ts);
      && |raw'| == |raw|
      && Parse(raw') == Ok(Parse(raw).value.(ts := ts))
      && Open(box, raw', key) == Open(box, raw, key)
  {
    var f := Parse(raw).value.(ts := ts);
    ParsePrint(f);
    assert Print(f)[9..33] == f.nonce && Print(f)[33..] == f.body;
  }

  /** Of the version byte it is the value that is checked: any but 1 is rejected as an
      unknown version, under every key, and 1 makes the token open as its other bytes do. */
  lemma VersionIsOnlyCompared(box: S.Box, raw: bytes, key: S.Key, v: byte)
    requires |raw| >= MIN_TOKEN_BYTES
    ensures v != 0x01 ==> Open(box, raw[0 := v], key) == Err(LogicError(UnknownVersion(v)))
    ensures Open(box, raw[0 := 0x01], key)
      == match box.open(key, raw[9..33], raw[33..]) case None => Err(InvalidSignature) case Some(p) => Ok(p)
  {
    var raw' := raw[0 := 0x01];
    assert raw'[9..33] == raw[9..33] && raw'[33..] == raw[33..];
  }

  /** Copies src into dst from position at. */
  method CopyInto(dst: array<byte>, at: nat, src: bytes)
    requires at + |src| <= dst.Length
    modifies dst
    ensures dst[..at + |src|] == old(dst[..at]) + src
  {
    forall k | 0 <= k < |src| {
      dst[at + k] := src[k];
    }
    assert dst[at..at + |src|] == src;
  }

  /** encrypt_raw: the token buffer is filled field by field. */
  method EncryptRaw(box: S.Box, plaintext: bytes, key: S.Key, now: u64, draw: S.NonceBytes) returns (r: Result<bytes>)
    ensures r == Seal(box, plaintext, key, now, draw)
  {
    if |key| != S.KEYBYTES {
      return Err(LogicError(KeySize(|key|)));
    }
    var token := new byte[OVERHEAD + |plaintext|](_ => 0);
    token[0] := VERSION;
    E.WriteU64Be(token, VERSION_SIZE, now);
    assert token[..9] == [VERSION] + E.Digits(now, 8);
    CopyInto(token, 9, draw);
    assert token[9..33] == token[..33][9..] == draw;
    match box.seal(key, token[9..33], plaintext)
    case None =>
      r := Err(RuntimeError);
    case Some(body) =>
      CopyInto(token, HEADER_SIZE, body);
      assert token[..] == token[..HEADER_SIZE + |body|];
      r := Ok(token[..]);
  }

  /** decrypt_raw: the timestamp is handed out as soon as the header is accepted,
      before the seal is checked; ts is left alone when it is not. */
  method DecryptRaw(box: S.Box, raw: bytes, key: S.Key, tsIn: u64) returns (r: Result<bytes>, ts: u64)
    ensures r == Open(box, raw, key)
    ensures ts == match Parse(raw) case Ok(f) => f.ts case Err(_) => tsIn
  {
    ts := tsIn;
    if |raw| < MIN_TOKEN_BYTES {
      return Err(LogicError(TokenTooShort(|raw|))), ts;
    }
    if raw[0] != VERSION {
      return Err(LogicError(UnknownVersion(raw[0]))), ts;
    }
    ts := E.ReadU64Be(raw[VERSION_SIZE..VERSION_SIZE + TIMESTAMP_SIZE]);
    var nonce := raw[VERSION_SIZE + TIMESTAMP_SIZE..HEADER_SIZE];
    match box.open(key, nonce, raw[HEADER_SIZE..])
    case None =>
      r := Err(InvalidSignature);
    case Some(p) =>
      var plaintext := new byte[|raw| - HEADER_SIZE - S.MACBYTES](_ => 0);
      forall k | 0 <= k < |p| {
        plaintext[k] := p[k];
      }
      assert plaintext[..] == p;
      r := Ok(plaintext[..]);
  }
}

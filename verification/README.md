# Sylvite: a verified model of its token, codec, nonce, stream and buffer logic

Sylvite is a C++20 wrapper over libsodium. This project models the parts of it that do
work of their own and proves, in Dafny, what they promise for every input and every run:

* **Natron tokens** (`TokenFormat`, `Clock`, `Ttl`, `NatronSpec`, `Natron`,
  `NatronMultiKey`, `Rotation`): the binary layout with its printer and parser, the uint64
  age checks, first-match decryption with a key ring, and the rotation protocol over a
  token store.
* **Base64** (`BitStrings`, `Base64`, `Base64Codec`): all four variants. Encoding is
  specified group by group and shown to spell the input's bits; decoding is specified as
  the partial inverse; the buffer-filling code with its bit accumulator is proved to
  compute both.
* **Timestamps** (`BigEndian`): the big-endian codec.
* **Nonces** (`Nonce`, `XChaCha20`): the `used` flag, the carry loop and what they
  guarantee over whole runs.
* **Streams** (`Stream`): encryptor and decryptor as two machines joined by a queue.
* **Buffers** (`Packer`, `SecureString`): concatenation and cutting, and the
  NUL-terminated string.

The code is in the form of the original: in-place algorithms are methods over arrays,
stateful types are classes, and each such method is tied to a function of its inputs or
of the old state; the theorems are about those functions. The cryptographic primitives
are records of functions (`Secretbox.Box`, `XChaCha20.Aead`, `Stream.Primitive`) of which
only the round-trip and length laws are assumed, each with a concrete lawful instance.
Nothing is assumed of keys other than the sealing one. Clock readings and random draws
are parameters. Exceptions are values of `Prelude.Error`.

`dafny verify dfyconfig.toml` checks the project.

## Where the code and its documentation differ

The model follows the code. Where a documented property is false, one lemma gives the
exact condition under which it holds, for all inputs, and another an input.

* The file comment of natron.hpp has the MAC authenticate version and timestamp, detect any
  tampering, and the TTL reject old tokens (symmetric/natron.hpp:25-32). Neither field is
  passed to the seal (symmetric/natron.hpp:214-218). `TokenFormat.OpenIgnoresTimestamp`:
  every token opens the same, under every key, with every other timestamp.
  `NatronSpec.StatedAgeOnly` and `NatronSpec.SomeStatedAgeIsAccepted` draw the consequence
  for both decryption functions, `NatronSpec.StatedAgeExample` is an input, and
  `TokenFormat.VersionIsOnlyCompared` says what becomes of the version byte.
* Natron is documented as URL-safe Base64 without padding, of about 65 characters for seven
  bytes, and to accept that with or without padding (symmetric/natron.hpp:343,
  symmetric/natron.hpp:380). It calls the codec with its default variant, padded standard
  Base64 (symmetric/natron.hpp:357, symmetric/natron.hpp:412), and makes 76 characters of
  seven bytes (`NatronSpec.FreshToken`). `NatronSpec.TokenTextVariants` says exactly which
  tokens are as documented, and which in another variant are accepted.
* base64.hpp documents that mismatched variants always throw (utils/base64.hpp:12-14,
  utils/base64.hpp:117-119). `Base64.VariantMismatch` gives the exact condition for every
  pair of variants, `Base64.MismatchAccepted` and `Base64.MismatchRejected` an input each.
* A negative TTL becomes a huge one in the cast to uint64, and the clock sum `now + 60`
  wraps near 2^64. `Ttl.CheckIsFreshness` gives the exact clocks and TTLs for which the
  single-key check means what is documented, `Ttl.RingCheckIsAge` the exact TTLs for the
  ring, `Ttl.NegativeTtlAccepts` an input.
* The key ring has no check for timestamps in the future; `NatronSpec.SingleVersusRing`
  says exactly where that makes a difference, `NatronSpec.FutureTokensExist` that it does.
* `increment` is documented as big-endian (types/nonce.hpp:218-220) but counts from the
  first byte. `Nonce.BigEndianCountsExactly` says for which buffers the documentation holds
  all the same, `Nonce.BigEndianExample` is a buffer for which it does not.
* `Nonce(n)` is documented to be randomised and is zero-filled (types/nonce.hpp:141-153).
  The theorems for one nonce hold for every starting value; for two,
  `XChaCha20.TwoNonces` gives the exact condition under which they share none, and
  `XChaCha20.FreshNoncesMeet` shows that two new ones do.
* `token_timestamp` converts any 64-bit value to a time point;
  `Clock.TimePointIsExact` says which ones the conversion preserves,
  `Clock.LastNanosecond` is the first it does not on a nanosecond clock.
* `String(Vector&&)` tests the vector it has just moved from, so it always appends a
  terminator (types/string.hpp:110-120); the contract of `SecureString.Adopt` says when
  that differs from the documentation.
* `getline` is documented to skip one leading line break when that is the delimiter; it
  skips whatever the delimiter, and a carriage return on its own costs it a whole line
  (types/string.hpp:167-188). `SecureString.SkipAsDocumented` gives the exact condition,
  `SecureString.LoneReturnLosesALine` an input.

## Model

| member | source | states |
|---|---|---|
| Base64.SextetsSpell | utils/base64.hpp:71-97 | the sextets of any byte string are its bits in order, followed by fewer than six zero bits |
| Base64.SpellingIsUnique | utils/base64.hpp:71-97 | no other string of sextets spells those bytes, so the group formulas are the only right ones |
| Base64.EncodeIsRfc4648 | utils/base64.hpp:19-24 | a string is the encoding of b in a variant exactly if it spells the bits of b in the characters of that variant's RFC 4648 table, followed by '=' up to a multiple of four, or by nothing |
| Base64.EncodeInjective | utils/base64.hpp:89-104 | in each of the four variants different bytes have different encodings |
| Base64.DecodeInvertsEncode | utils/base64.hpp:88-150 | a string decodes to b exactly when b encodes to it: decoding undoes encoding, and an accepted string is re-encoded to itself |
| Base64.AlphabetInverse | utils/base64.hpp:53-69 | each alphabet has 64 different characters, none of them the padding |
| Base64.DocumentedGroup | utils/base64.hpp:121-126 | the first group of the documented example, in any variant |
| Base64.VariantMismatch | utils/base64.hpp:89-150 | for every pair of variants, which encodings in one are accepted in the other: exactly those without the characters and the padding they differ in; the result is then the original |
| Base64.MismatchAccepted | utils/base64.hpp:12-14 | a mismatch that is accepted |
| Base64.MismatchRejected | utils/base64.hpp:117-119 | a mismatch that is rejected |
| Base64.EncodedLenExact | utils/base64.hpp:78-91 | exact output length for every input length and variant |
| Base64.DecodeCapacity | utils/base64.hpp:131-132 | (n/4)*3+2 bounds the bytes complete after n characters, and is reached when n%4 is 3 |
| Base64Codec.SodiumBin2Base64 | utils/base64.hpp:90-97 | the bit accumulator fills the buffer with the encoding and nothing but terminators after it |
| Base64Codec.Encode | utils/base64.hpp:89-104 | sizing, filling and dropping the one trailing terminator give exactly the encoding |
| Base64Codec.SodiumBase642Bin | utils/base64.hpp:132-146 | decoding succeeds exactly on encodings that fit the buffer, returns what encodes to the input, and runs out of room only in a buffer smaller than the complete octets |
| Base64Codec.AlwaysRoom | utils/base64.hpp:131-134 | the buffer that decode allocates holds whatever the input can stand for |
| Base64Codec.Decode | utils/base64.hpp:130-150 | decode is the inverse of encode, and an error for every string that is not an encoding: wrong alphabet, padding, trailing bits or length |
| BigEndian.WriteU64Be | symmetric/natron.hpp:139-148 | the eight bytes become the base-256 digits of the value, highest first, and no other byte changes |
| BigEndian.EightBytes | symmetric/natron.hpp:155-164 | the shifted sum is the big-endian value of the bytes |
| BigEndian.TimestampCodec | symmetric/natron.hpp:139-164 | writing and reading are mutually inverse between uint64 values and eight-byte strings |
| BigEndian.OrderIsLexicographic | symmetric/natron.hpp:139-164 | numeric order is byte-wise order, and equal values have equal bytes |
| TokenFormat.ParsePrint | symmetric/natron.hpp:190-223 | parsing a written token gives its fields back |
| TokenFormat.PrintParse | symmetric/natron.hpp:247-276 | a token that parses is rebuilt byte for byte from its fields |
| TokenFormat.SealOpens | symmetric/natron.hpp:181-296 | a sealed token is 49 bytes longer than the plaintext, carries the sealing time and opens to the plaintext |
| TokenFormat.MalformedUnderEveryKey | symmetric/natron.hpp:247-267 | short-token and version errors do not depend on the key, and failed authentication means the token is well formed |
| TokenFormat.OpenIgnoresTimestamp | symmetric/natron.hpp:256-276 | any token with any other timestamp parses with that timestamp and opens, or fails to, as before under every key |
| TokenFormat.VersionIsOnlyCompared | symmetric/natron.hpp:256-267 | with any version byte but 1 a token is an unknown version under every key; with 1 it opens as its other bytes do |
| TokenFormat.EncryptRaw | symmetric/natron.hpp:181-224 | the buffer filled field by field is the written token; key-size and primitive failures are reported |
| TokenFormat.DecryptRaw | symmetric/natron.hpp:242-296 | the plaintext or the right error; the timestamp is handed out exactly when the header is accepted, even if the seal is not |
| Clock.TimePointOfStamp | symmetric/natron.hpp:198-204 | the time point read from a token is the clock it was sealed at cut to whole seconds, for every clock reading and tick length |
| Clock.TimePointIsExact | symmetric/natron.hpp:486-489 | any timestamp is read as the time it stands for exactly if that time fits a signed 64-bit clock |
| Clock.LastNanosecond | symmetric/natron.hpp:489 | the last timestamp a nanosecond clock can hold and the first it cannot |
| Ttl.TtlWindow | symmetric/natron.hpp:417-439 | without wrap-around acceptance is exactly ts-60 <= now <= ts+ttl over unbounded integers |
| Ttl.SingleWindow | symmetric/natron.hpp:417-439 | for every clock and TTL the single-key check is that of the ring after the tolerance of a minute, where the last minute of the clock starts over |
| Ttl.RingWindow | symmetric/natron.hpp:624-639 | for the ring it is exactly now <= ts+ttl, with the age reported otherwise, for every clock; a negative TTL counts 2^64 seconds more |
| Ttl.TtlMonotone | symmetric/natron.hpp:417-439 | a longer TTL accepts at least as much, and once an accepted token is rejected it is as expired |
| Ttl.CheckIsFreshness | symmetric/natron.hpp:417-439 | for which clocks and TTLs, exactly, the single-key check means the documented freshness for every timestamp |
| Ttl.RingCheckIsAge | symmetric/natron.hpp:624-639 | the ring check means "not older than the TTL" for every timestamp exactly when the TTL is not negative |
| Ttl.NegativeTtlAccepts | symmetric/natron.hpp:417-439 | an input on which both checks accept under a negative TTL |
| NatronSpec.FreshToken | symmetric/natron.hpp:346-372 | a fresh token string has length 4*ceil((49+n)/3) and stands for the sealed bytes |
| NatronSpec.RoundTrip | symmetric/natron.hpp:346-489 | encryption fails exactly for a wrong key size or a primitive failure; otherwise the token decrypts to the plaintext, shows the encryption clock, and under a TTL is accepted exactly in its window |
| NatronSpec.EncryptFails | symmetric/natron.hpp:181-221 | the error of a wrong key size, with that size, and of a failing primitive |
| NatronSpec.UndecodableTokens | symmetric/natron.hpp:405-412 | text that is not the padded standard Base64 of any bytes is a decoding error for single key, ring and timestamp; a wrong key size comes before it |
| NatronSpec.MalformedTokens | symmetric/natron.hpp:247-267 | fewer than 49 bytes, or a version other than 1, is reported as that by all three, with the length or the version, whatever the key |
| NatronSpec.WellFormedTokens | symmetric/natron.hpp:256-285 | any other token is an invalid signature if the primitive does not open bytes 33 on under the nonce in bytes 9 to 32, and else judged by the timestamp in bytes 1 to 8 |
| NatronSpec.TokensAreWrittenFields | symmetric/natron.hpp:470-489 | the accepted token strings are exactly the written ones, one string per set of fields, and the timestamp read is the one written |
| NatronSpec.TimestampAgrees | symmetric/natron.hpp:412-438 | the timestamp that can be read without the key is the one the TTL check of decrypt uses |
| NatronSpec.RingIsFirstMatch | symmetric/natron.hpp:611-657 | ring decryption gives the plaintext of the first key that opens, invalid signature exactly if the token is well formed and none does, and header errors whatever the ring |
| NatronSpec.SingleVersusRing | symmetric/natron.hpp:405-445 | a one-key ring and single-key decryption agree exactly unless a TTL is given, the token opens and its timestamp is past the tolerance; then the single form rejects it as from the future, and the ring goes by its age, which is zero unless the clock sum wraps |
| NatronSpec.FutureTokensExist | symmetric/natron.hpp:424-430 | every token sealed more than the tolerance ahead of the reader's clock is such a token |
| NatronSpec.StatedAgeOnly | symmetric/natron.hpp:405-657 | every token can be given any timestamp as another token of the same length, with the same plaintext under the same key or ring, and an age counted from that timestamp |
| NatronSpec.SomeStatedAgeIsAccepted | symmetric/natron.hpp:382-445 | for every token that opens and every TTL there is a token of the same length and plaintext that is accepted |
| NatronSpec.StatedAgeExample | symmetric/natron.hpp:432-438 | an expired token and its accepted counterpart |
| NatronSpec.RingAge | symmetric/natron.hpp:619-646 | what a ring can read, it reads under a TTL exactly as long as the stated age allows |
| NatronSpec.TokenTextVariants | symmetric/natron.hpp:343-412 | which tokens are URL-safe text without padding, and which texts in another variant are accepted |
| NatronSpec.RotateRefuses | symmetric/natron.hpp:670-685 | rotate refuses undecodable, malformed, unopened and expired tokens, the last whichever key opens them, each with the error of decrypt |
| NatronSpec.RotateAccepts | symmetric/natron.hpp:684-685 | what decrypt accepts is sealed under the first key at the time of rotation, or fails with the primitive |
| NatronSpec.RotationResetsAge | symmetric/natron.hpp:659-686 | a rotated token carries the rotation time, keeps the plaintext, and is accepted by the ring exactly until older than the TTL, whatever the age of the original |
| Natron.Encrypt | symmetric/natron.hpp:346-372 | the code computes the specified token |
| Natron.Decrypt | symmetric/natron.hpp:405-445 | the code computes the specified result, error kinds included |
| Natron.TokenTimestamp | symmetric/natron.hpp:470-489 | the code reads the specified timestamp and converts it to a time point |
| NatronMultiKey.Create | symmetric/natron.hpp:554-571 | accepted exactly if not empty and all keys have 32 bytes; otherwise the first offending key is named |
| NatronMultiKey.Encrypt | symmetric/natron.hpp:585-587 | encrypts under the first key |
| NatronMultiKey.Decrypt | symmetric/natron.hpp:611-657 | the key loop computes the specified first match, with one timestamp variable overwritten per try |
| NatronMultiKey.Rotate | symmetric/natron.hpp:679-686 | decrypts with any key and encrypts with the first, passing every error on |
| Rotation.PrependExact | symmetric/natron.hpp:525-526 | a new first key keeps a token readable exactly if it does not open it to something else |
| Rotation.RetireExact | symmetric/natron.hpp:529-530 | retiring a key keeps a token readable exactly if it is not the first opener or the later keys read the token the same |
| Rotation.SufficientConditions | symmetric/natron.hpp:520-537 | the plain cases: keys that open nothing, a key of the ring moved to the front, a key of which a copy remains |
| Rotation.RotatedPlain | symmetric/natron.hpp:679-686 | what a rotation re-encrypts is the original plaintext, and it is refused exactly as expired, counted from the last sealing |
| Rotation.StepKeepsExactly | symmetric/natron.hpp:520-537 | an encrypt, rotate, prepend-key or retire-key step, failed ones included, keeps every stored token readable as what it was made for exactly when it meets its condition |
| Rotation.StepsTakeEffect | symmetric/natron.hpp:554-587 | a plaintext the primitive seals is stored with its time, a key of 32 bytes goes to the front, any key but the only one can be taken out; otherwise nothing changes |
| Rotation.RotateHonoursTheTtl | symmetric/natron.hpp:679-686 | stale or not, a stored token is refused as expired exactly if its last sealing is longer ago than the TTL, and else only the primitive can fail |
| Rotation.RunsKeepEveryPlaintext | symmetric/natron.hpp:520-537 | a run keeps the store readable throughout exactly when all its steps meet their conditions; at its end every token reads as its original plaintext at any clock, and under a TTL is accepted exactly until older than that since its last sealing |
| Rotation.ReadableStoreIsSafe | symmetric/natron.hpp:520-537 | a run may start from any store the ring can read |
| Rotation.FreshReads | symmetric/natron.hpp:585-587 | a token sealed under the active key is read by the ring, opened by that key, and states its time |
| Rotation.RotateMakesProgress | symmetric/natron.hpp:659-686 | a rotation not refused takes exactly that token off the list of those the active key does not open and restarts its age, and touches no other; a refused one changes nothing |
| Rotation.MigrationComplete | symmetric/natron.hpp:528-531 | the active key alone reads every token as the original plaintext exactly when none is stale |
| Rotation.MigrateAll | symmetric/natron.hpp:672-677 | the documented loop: what it has rotated needs the active key only, the rest is untouched, everything stays readable, also when it stops early |
| Nonce.SuccessorCounts | types/nonce.hpp:217-246 | the carry pass is +1 modulo 256^n with the first byte lowest |
| Nonce.IncrementAdvances | types/nonce.hpp:235-246 | an increment leaves an unused nonce of the same size at another value, one further on; an empty one is left alone |
| Nonce.BigEndianCountsExactly | types/nonce.hpp:217-246 | read as a big-endian number it is +1 modulo 256^n exactly for at most one byte or all ones |
| Nonce.BigEndianExample | types/nonce.hpp:218-220 | two zero bytes read big-endian go to 256 |
| Nonce.SodiumIncrement | types/nonce.hpp:241-246 | the in-place carry loop computes the successor for every length |
| Nonce.Nonce.Lazy | types/nonce.hpp:133-135 | empty and unused |
| Nonce.Nonce.Eager | types/nonce.hpp:153 | n zero bytes, unused |
| Nonce.Nonce.FromSpan | types/nonce.hpp:164-166 | a copy of the bytes, already used |
| Nonce.Nonce.RandomGenerate | types/nonce.hpp:184-188 | n drawn bytes, unused |
| Nonce.Nonce.Randomize | types/nonce.hpp:211-215 | the drawn bytes in the same buffer, unused |
| Nonce.Nonce.Increment | types/nonce.hpp:241-246 | the successor, unused; nothing on an empty buffer |
| XChaCha20.Encrypt | symmetric/xchacha20.hpp:129-169 | result and nonce state after every kind of attempt: reuse, lazy filling, wrong size, primitive failure, success |
| XChaCha20.Decrypt | symmetric/xchacha20.hpp:201-232 | plaintext or error from the first 32 bytes of the key and 24 of the nonce, which is not touched |
| XChaCha20.AttemptDecides | symmetric/xchacha20.hpp:137-168 | an attempt succeeds exactly if the nonce was unused, has 24 bytes and the primitive does, with the primitive's ciphertext under the nonce left behind; a new lazy nonce holds the draw, no other content changes; the error and the flag in each other case |
| XChaCha20.DecryptAuthenticates | symmetric/xchacha20.hpp:207-231 | a plaintext exactly if there is a tag and the primitive authenticates to it, else a runtime error |
| XChaCha20.ForeignCiphertext | symmetric/xchacha20.hpp:190-194 | what was encrypted under one key, nonce and associated data is refused under others exactly if the primitive rejects it |
| XChaCha20.AttemptRoundTrip | symmetric/xchacha20.hpp:129-232 | after a successful encryption the nonce object decrypts the ciphertext, and every further attempt is refused without effect |
| XChaCha20.RunSpreads | symmetric/xchacha20.hpp:137-168 | in any run each successful encryption uses the counter value as many steps on as there were increments, with at least one increment between two of them |
| XChaCha20.NoncesNeverRepeat | symmetric/xchacha20.hpp:116-142 | with fewer than 2^192 increments no two successful encryptions of a run use the same nonce |
| XChaCha20.NoncesRepeatAtTheBound | types/nonce.hpp:224-226 | with 2^192 increments they can |
| XChaCha20.UsedMeansConsumed | types/nonce.hpp:248-256 | at the end of any run from an unused nonce the flag is set exactly if a successful encryption of the run used its present content |
| XChaCha20.TwoNonces | types/nonce.hpp:137-153 | two unused nonces d counts apart share no value in any two runs of up to m and n increments exactly if m < d and n < 2^192 - d |
| XChaCha20.FreshNoncesMeet | types/nonce.hpp:137-153 | two new nonces of 24 bytes use the same value for their first encryption |
| XChaCha20.Replay | symmetric/xchacha20.hpp:129-169 | carried out on a nonce object, such a run produces exactly those nonces, all distinct |
| XChaCha20.LazyRun | symmetric/xchacha20.hpp:137-168 | in any run of encryptions and generations on a lazy nonce each success uses a draw of its own, unaltered, in the order drawn |
| XChaCha20.DifferentDrawsSuffice | symmetric/xchacha20.hpp:137-168 | so if the draws differ no value is used twice |
| XChaCha20.NewLazyNonces | symmetric/xchacha20.hpp:143-147 | encryptions on new lazy nonces use their draws, so pairwise different values exactly if the draws of those that succeed differ |
| XChaCha20.LazyReplay | symmetric/xchacha20.hpp:129-169 | carried out on a nonce object, such a run uses exactly those values |
| Stream.Encryptor.Update | symmetric/stream.hpp:205-221 | chunk and new state, or the error and no change |
| Stream.Encryptor.Finalize | symmetric/stream.hpp:249-266 | the same for the final chunk, which also finishes the encryptor |
| Stream.Decryptor.Pull | symmetric/stream.hpp:381-415 | plaintext, tag and new state, or the error and no change; finished exactly on the final tag |
| Stream.PushDecides | symmetric/stream.hpp:205-266 | a push is accepted exactly if the encryptor is not finished and the primitive accepts; tag 3 finishes it; the error and an unchanged state otherwise |
| Stream.PullDecides | symmetric/stream.hpp:381-415 | what is delivered is exactly what the primitive authenticates in the decryptor's state, before it is finished and from 17 bytes on; the error and an unchanged state otherwise |
| Stream.MakeEncryptor | symmetric/stream.hpp:151-160 | key check, header and initial state |
| Stream.MakeDecryptor | symmetric/stream.hpp:333-347 | key check; with the encryptor's key and header it starts in the encryptor's state |
| Stream.PushKeeps | symmetric/stream.hpp:205-266 | a push, accepted or refused, keeps both ends in step |
| Stream.DeliverSucceeds | symmetric/stream.hpp:381-415 | the next chunk in flight always pulls and gives what was pushed |
| Stream.SessionsStayInStep | symmetric/stream.hpp:205-415 | over every interleaving: delivered is a prefix of pushed, chunks are 17 bytes longer than their messages, MESSAGE chunks and at most one FINAL at the end, the decryptor finished exactly when it has pulled that one |
| Stream.SessionBegins | symmetric/stream.hpp:310-347 | with the encryptor's key and header the decryptor can start, and both ends are in step |
| Stream.DrainDeliversAll | symmetric/stream.hpp:381-415 | pulling the chunks in flight delivers all that was pushed, in order |
| Stream.EverythingArrives | symmetric/stream.hpp:111-415 | with a primitive that does not fail to push, after any run every message pushed up to the final one has been delivered with its tag once the chunks in flight are pulled |
| Stream.ForeignIsInvisible | symmetric/stream.hpp:383-407 | a rejected pull does not alter what any later operation does |
| Stream.Converse | symmetric/stream.hpp:111-425 | carried out on an encryptor and a decryptor object, a run is that session |
| Packer.Pack | utils/packer.hpp:128-139 | successive inserts concatenate the buffers |
| Packer.GetOffset | utils/packer.hpp:85-92 | the offset loop sums the sizes before the field, and the open size is never among them |
| Packer.FitsIsInRange | utils/packer.hpp:95-107 | every subspan taken is in range exactly if no fixed size is negative and together they fit |
| Packer.Unpack | utils/packer.hpp:169-188 | the pieces have the sizes asked for and put together are the front of the buffer, all of it with an open last size |
| Packer.CutIsUnique | utils/packer.hpp:94-107 | there is only one such list of pieces |
| Packer.UnpackAfterPack | utils/packer.hpp:128-188 | unpacking a packed list with its sizes, the last possibly open, is accepted and gives the list |
| Packer.PackAfterUnpack | utils/packer.hpp:128-188 | packing the pieces gives the buffer back exactly when the sizes leave nothing over |
| SecureString.SecureString.constructor | types/string.hpp:102-108 | terminated and empty |
| SecureString.SecureString.Adopt | types/string.hpp:116-120 | the text is the vector; storage is as documented exactly if that had no terminator |
| SecureString.SecureString.Size | internal/base.hpp:199-201 | the length of the text, without the terminator |
| SecureString.SecureString.At | internal/base.hpp:184-193 | the character of the text, or the range error |
| SecureString.SecureString.Back | internal/base.hpp:323-334 | the last character of the text, or the error on an empty one |
| SecureString.SecureString.Equals | internal/base.hpp:380-383 | equality of the texts |
| SecureString.SecureString.PushBack | internal/base.hpp:251-258 | appends to the text and keeps the terminator |
| SecureString.SecureString.PopBack | internal/base.hpp:268-277 | drops the last character, or nothing, and keeps the terminator |
| SecureString.SecureString.Wipe | internal/base.hpp:313-321 | the text becomes empty, the terminator stays |
| SecureString.SecureString.Swap | types/string.hpp:141-143 | exchanges the texts |
| SecureString.Replay | internal/base.hpp:251-321 | every history of these operations on two strings is that history on plain sequences, both terminated throughout |
| SecureString.Getline | types/string.hpp:183-199 | after the skip, the text is the input up to the delimiter and the rest is what follows it |
| SecureString.SkipEndsTheLine | types/string.hpp:186-188 | a leading line feed, or carriage return with characters buffered, is skipped right past the first line feed, or with the whole input if there is none; nothing else is |
| SecureString.SkipAsDocumented | types/string.hpp:167-188 | on which inputs, exactly, the leading skip is the documented one |
| SecureString.LoneReturnLosesALine | types/string.hpp:186-188 | an input on which it is not |

## Left out

- The primitives themselves (secretbox, AEAD, secretstream, key exchange, signatures, hashes, KDFs): calls into libsodium; only the laws named above are used.
- The Base64 codec loops are libsodium's and not part of the repository; they are written here from sections 3.5, 4 and 5 of RFC 4648. The `decode` overload for `String` is the same code and not repeated.
- Secrecy, unforgeability, timing and randomness: random draws are arbitrary inputs, so freshness of random nonces is not claimed; the distinctness theorem holds from every starting value, so it covers each stretch between two randomisations of a nonce; across them, and for two nonces, `XChaCha20.TwoNonces` says what the draws have to meet, and for lazy nonces `XChaCha20.LazyRun`.
- NatronMultiKey.Create: keys are values, so changing a `Key` object after a ring was built from a reference to it is not modelled.
- Byte buffers (`Base<std::uint8_t>`), `Hex`, and the nonce-prefix boxes in asymmetric/box.hpp, symmetric/xchacha20box.hpp and symmetric/xsalsa20box.hpp: the same patterns as above over other types.
- hash/, kdf/, pq/ and asymmetric/: size and state guards around one library call.
- Raw `data()` pointers, iterators, writes through `operator[]`, `at()` or `back()`, moved-from objects, capacity and secure allocation.
- Natron.TokenTimestamp: a time point outside the signed 64-bit range, whose computation C++ leaves undefined, is the value `None`.
- XChaCha20.Encrypt: requires a key of at least the 32 bytes the primitive reads, as the type `XChaCha20.Key`; the source does not check this, and what it reads past a shorter key is not modelled.
- XChaCha20.Decrypt: the same for the key and for a nonce of fewer than 24 bytes.
- Packer.Unpack: requires what `std::span::subspan` requires of the layout, since the source does not check it; the compile-time check on -1 is a precondition.
- Stream.MakeDecryptor: the size check in the `StreamHeader` constructor is the type `Stream.Header`.
- SecureString.Getline: the stream is the sequence of characters left to read; stream state flags are not modelled, and whether the stream has characters buffered is a parameter.

/** The Base64 functions of the library: each allocates a buffer, has the bit
    accumulator fill it in place, and shrinks it to what was written. */
module Base64Codec {
  import opened Prelude
  import opened BitStrings
  import B = Base64

  /** The invariant of both accumulator loops: the sextets on one side spell the
      octets on the other and the n pending bits of acc. Encoding leaves the octets
      ahead (pending bits belong to them), decoding the sextets. */
  ghost predicate Pending(whole: seq<int>, w: nat, part: seq<int>, u: nat, acc: int, n: nat)
    requires w > 0 && u > 0
  {
    && 0 <= acc < Pow2(n)
    && BitString(whole, w) == BitString(part, u) + Bits(acc, n)
  }

  /** Shifting the next digit in. */
  lemma Absorb(whole: seq<int>, w: nat, part: seq<int>, u: nat, acc: int, n: nat, d: int)
    requires w > 0 && u > 0 && Pending(whole, w, part, u, acc, n)
    requires 0 <= d < Pow2(w)
    ensures Pending(whole + [d], w, part, u, acc * Pow2(w) + d, n + w)
  {
    BitStringSnoc(whole, d, w);
    BitsConcat(acc, n, d, w);
    Pow2Sum(n, w);
    ShiftBound(acc, Pow2(n), d, Pow2(w));
    Reassociate(BitString(part, u), Bits(acc, n), Bits(d, w));
  }

  lemma Reassociate(a: seq<bool>, b: seq<bool>, c: seq<bool>)
    ensures a + b + c == a + (b + c)
  {
  }

  /** Taking the oldest u bits out. */
  lemma Emit(whole: seq<int>, w: nat, part: seq<int>, u: nat, acc: int, n: nat)
    requires w > 0 && u > 0 && Pending(whole, w, part, u, acc, n)
    requires n >= u
    ensures 0 <= acc / Pow2(n - u) < Pow2(u)
    ensures Pending(whole, w, part + [acc / Pow2(n - u)], u, acc % Pow2(n - u), n - u)
  {
    SplitPending(acc, u, n - u);
    Moved(BitString(whole, w), part, u, acc / Pow2(n - u), Bits(acc % Pow2(n - u), n - u));
  }

  lemma SplitPending(acc: int, u: nat, rest: nat)
    requires 0 <= acc < Pow2(u + rest)
    ensures 0 <= acc / Pow2(rest) < Pow2(u)
    ensures 0 <= acc % Pow2(rest) < Pow2(rest)
    ensures Bits(acc, u + rest) == Bits(acc / Pow2(rest), u) + Bits(acc % Pow2(rest), rest)
  {
    Pow2Sum(u, rest);
    QuotientBound(acc, Pow2(u), Pow2(rest));
    BitsSplit(acc, u, rest);
  }

  lemma Moved(whole: seq<bool>, part: seq<int>, u: nat, d: int, rest: seq<bool>)
    requires u > 0 && whole == BitString(part, u) + (Bits(d, u) + rest)
    ensures whole == BitString(part + [d], u) + rest
  {
    BitStringSnoc(part, d, u);
    Reassociate(BitString(part, u), Bits(d, u), rest);
  }

  lemma {:induction false} Pow2Sum(m: nat, n: nat)
    ensures Pow2(m + n) == Pow2(m) * Pow2(n)
  {
    if m > 0 {
      calc {
        Pow2(m + n);
        2 * Pow2(m - 1 + n);
        { Pow2Sum(m - 1, n); }
        2 * (Pow2(m - 1) * Pow2(n));
        { MultiplyAssociative(2, Pow2(m - 1), Pow2(n)); }
        2 * Pow2(m - 1) * Pow2(n);
        Pow2(m) * Pow2(n);
      }
    }
  }

  lemma MultiplyAssociative(x: int, y: int, z: int)
    ensures x * (y * z) == x * y * z
  {
  }

  lemma ShiftBound(x: int, p: int, d: int, q: int)
    requires 0 <= x < p && 0 <= d < q
    ensures 0 <= x * q + d < p * q
  {
    MultipleGrows(x + 1, p, q);
  }

  lemma QuotientBound(x: int, p: int, q: int)
    requires 0 <= x < p * q && q > 0
    ensures 0 <= x / q < p
  {
  }

  /** The first characters of out encode the sextets sx, which spell the octets of data
      up to the pending bits. */
  ghost predicate Encoding(out: string, v: B.Variant, data: bytes, sx: seq<int>, acc: int, nbits: nat) {
    && |sx| <= |out| && Digits(sx, 6)
    && (forall k :: 0 <= k < |sx| ==> 0 <= sx[k] < 64 && out[k] == B.ToChar(sx[k], v.Safe()))
    && 6 * |sx| + nbits == 8 * |data|
    && Pending(data, 8, sx, 6, acc, nbits)
  }

  /** Writes out every complete sextet. */
  method Drain(out: array<char>, v: B.Variant, ghost data: bytes, ghost sx: seq<int>, pos: nat, acc: nat, nbits: nat)
    returns (ghost sx': seq<int>, pos': nat, acc': nat, nbits': nat)
    requires pos == |sx| && Encoding(out[..], v, data, sx, acc, nbits)
    requires 6 * out.Length >= 8 * |data|
    modifies out
    ensures pos' == |sx'| && nbits' < 6 && Encoding(out[..], v, data, sx', acc', nbits')
  {
    B.Pow2Facts();
    sx', pos', acc', nbits' := sx, pos, acc, nbits;
    while nbits' >= 6
      invariant pos' == |sx'| && Encoding(out[..], v, data, sx', acc', nbits')
    {
      Emit(data, 8, sx', 6, acc', nbits');
      nbits' := nbits' - 6;
      var d := acc' / Pow2(nbits');
      out[pos'] := B.ToChar(d, v.Safe());
      sx', pos', acc' := sx' + [d], pos' + 1, acc' % Pow2(nbits');
    }
  }

  lemma AbsorbOctet(out: string, v: B.Variant, data: bytes, sx: seq<int>, acc: int, nbits: nat, d: byte)
    requires Encoding(out, v, data, sx, acc, nbits)
    ensures Encoding(out, v, data + [d], sx, acc * 256 + d, nbits + 8)
  {
    B.Pow2Facts();
    Absorb(data, 8, sx, 6, acc, nbits, d);
  }

  /** Shifts one octet in and writes out the sextets it completes. */
  method PutOctet(out: array<char>, v: B.Variant, ghost done: bytes, ghost sx: seq<int>, pos: nat, acc: nat, nbits: nat,
                  octet: byte)
    returns (ghost sx': seq<int>, pos': nat, acc': nat, nbits': nat)
    requires pos == |sx| && Encoding(out[..], v, done, sx, acc, nbits)
    requires 6 * out.Length >= 8 * (|done| + 1)
    modifies out
    ensures pos' == |sx'| && nbits' < 6 && Encoding(out[..], v, done + [octet], sx', acc', nbits')
  {
    AbsorbOctet(out[..], v, done, sx, acc, nbits, octet);
    sx', pos', acc', nbits' := Drain(out, v, done + [octet], sx, pos, acc * 256 + octet, nbits + 8);
  }

  /** Writes the sextets of data and returns their number. */
  method WriteSextets(out: array<char>, data: bytes, v: B.Variant) returns (pos: nat)
    requires 6 * out.Length >= 8 * |data|
    modifies out
    ensures pos == |B.Sextets(data)| <= out.Length
    ensures out[..pos] == B.Chars(B.Sextets(data), v.Safe())
  {
    B.Pow2Facts();
    var acc, nbits, i := 0, 0, 0;
    ghost var sx: seq<int> := [];
    pos := 0;
    while i < |data|
      invariant i <= |data| && pos == |sx| && nbits < 6
      invariant Encoding(out[..], v, data[..i], sx, acc, nbits)
    {
      sx, pos, acc, nbits := PutOctet(out, v, data[..i], sx, pos, acc, nbits, data[i]);
      assert data[..i] + [data[i]] == data[..i + 1];
      i := i + 1;
    }
    assert data[..i] == data;
    pos := LastSextet(out, v, data, sx, pos, acc, nbits);
  }

  /** The pending bits, filled up with zeros. */
  method LastSextet(out: array<char>, v: B.Variant, ghost data: bytes, ghost sx: seq<int>,
                    pos: nat, acc: nat, nbits: nat)
    returns (end: nat)
    requires pos == |sx| && nbits < 6 && Encoding(out[..], v, data, sx, acc, nbits)
    requires 6 * out.Length >= 8 * |data|
    modifies out
    ensures end == |B.Sextets(data)| <= out.Length
    ensures out[..end] == B.Chars(B.Sextets(data), v.Safe())
  {
    if nbits > 0 {
      FillUp(data, sx, acc, nbits);
      var d := acc * Pow2(6 - nbits);
      out[pos] := B.ToChar(d, v.Safe());
      B.SpellingIsUnique(sx + [d], data);
      end := pos + 1;
    } else {
      NothingPending(data, sx, acc);
      B.SpellingIsUnique(sx, data);
      end := pos;
    }
  }

  lemma NothingPending(data: bytes, sx: seq<int>, acc: int)
    requires Pending(data, 8, sx, 6, acc, 0) && Digits(sx, 6) && 6 * |sx| == 8 * |data|
    ensures B.Spells(sx, data)
  {
  }

  /** Fills out with the encoding of data and zero terminators up to its end. */
  method SodiumBin2Base64(out: array<char>, data: bytes, v: B.Variant)
    requires out.Length > B.EncodedLen(|data|, v)
    modifies out
    ensures out[..B.EncodedLen(|data|, v)] == B.Encode(data, v)
    ensures forall k :: B.EncodedLen(|data|, v) <= k < out.Length ==> out[k] == '\0'
  {
    B.EncodedLenExact(data, v);
    var pos := WriteSextets(out, data, v);
    var len := B.EncodedLen(|data|, v);
    ghost var text := out[..pos];
    ghost var start := pos;
    while pos < len
      invariant start <= pos <= len
      invariant out[..pos] == text + Repeat(B.PAD, pos - start)
    {
      out[pos] := B.PAD;
      pos := pos + 1;
    }
    while pos < out.Length
      invariant len <= pos <= out.Length
      invariant out[..len] == B.Encode(data, v)
      invariant forall k :: len <= k < pos ==> out[k] == '\0'
    {
      out[pos] := '\0';
      pos := pos + 1;
    }
  }

  /** The last sextet: pending bits, then zeros. */
  lemma FillUp(data: bytes, sx: seq<int>, acc: int, n: nat)
    requires 0 < n < 6 && Pending(data, 8, sx, 6, acc, n) && Digits(sx, 6)
    requires 6 * |sx| + n == 8 * |data|
    ensures 0 <= acc * Pow2(6 - n) < 64
    ensures B.Spells(sx + [acc * Pow2(6 - n)], data)
  {
    FillBound(acc, n);
    BitStringSnoc(sx, acc * Pow2(6 - n), 6);
    Reassociate(BitString(sx, 6), Bits(acc, n), Repeat(false, 6 - n));
  }

  lemma FillBound(acc: int, n: nat)
    requires 0 < n < 6 && 0 <= acc < Pow2(n)
    ensures 0 <= acc * Pow2(6 - n) < 64 == Pow2(6)
    ensures Bits(acc * Pow2(6 - n), 6) == Bits(acc, n) + Repeat(false, 6 - n)
  {
    B.Pow2Facts();
    Pow2Sum(n, 6 - n);
    ShiftBound(acc, Pow2(n), 0, Pow2(6 - n));
    BitsConcat(acc, n, 0, 6 - n);
    BitsOfZero(6 - n);
  }

  /** Encode: exact output size plus one, fill, drop the trailing terminator. */
  method Encode(data: bytes, v: B.Variant) returns (r: string)
    ensures r == B.Encode(data, v)
  {
    var out := new char[B.EncodedLen(|data|, v) + 1](_ => '\0');
    SodiumBin2Base64(out, data, v);
    var size := out.Length;
    if size > 0 && out[size - 1] == '\0' {
      size := size - 1;
    }
    r := out[..size];
  }

  datatype Status = Done(len: nat) | NoRoom | Malformed

  /** If s is an encoding at all, the run of alphabet characters it starts with
      leaves at most four pending bits, all zero, and has decoded all of it. */
  lemma NothingElse(s: string, v: B.Variant, sx: seq<int>, part: bytes, acc: int, n: nat, b: bytes)
    requires B.Encode(b, v) == s && |sx| <= |s|
    requires forall k :: 0 <= k < |sx| ==> 0 <= sx[k] == B.FromChar(s[k], v.Safe())
    requires |sx| == |s| || B.FromChar(s[|sx|], v.Safe()) < 0
    requires Pending(sx, 6, part, 8, acc, n) && n < 8 && 8 * |part| + n == 6 * |sx|
    ensures n <= 4 && acc == 0 && b == part
  {
    B.LeadingChars(b, v, |sx|, sx);
    B.SextetsSpell(b);
    B.Pow2Facts();
    assert |b| == |part| && n <= 4;
    BitStringCancel(b, part, 8, Repeat(false, n), Bits(acc, n));
    BitsOfZero(n);
    BitsInjective(acc, 0, n);
  }

  /** Some octets that fit in room encode to s. */
  ghost predicate Fits(s: string, v: B.Variant, room: nat) {
    exists b: bytes :: |b| <= room && B.Encode(b, v) == s
  }

  /** A buffer that is full before the complete octets of i characters are out is
      too small for everything that starts with them. */
  lemma TooSmall(s: string, v: B.Variant, i: nat, room: nat)
    requires i < |s| && B.FromChar(s[i], v.Safe()) >= 0
    requires 6 * (i + 1) >= 8 * (room + 1)
    ensures !Fits(s, v, room)
  {
  }

  /** The first characters of s have the values sx, which spell the octets decoded
      so far and the pending bits. */
  ghost predicate Decoding(s: string, v: B.Variant, sx: seq<int>, part: bytes, acc: int, nbits: nat) {
    && |sx| <= |s| && Digits(sx, 6) && nbits < 8
    && (forall k :: 0 <= k < |sx| ==> 0 <= sx[k] == B.FromChar(s[k], v.Safe()))
    && 8 * |part| + nbits == 6 * |sx|
    && Pending(sx, 6, part, 8, acc, nbits)
  }

  /** One more character of the alphabet, completing no octet, ... */
  lemma HoldChar(s: string, v: B.Variant, sx: seq<int>, part: bytes, acc: int, n: nat, d: int)
    requires Decoding(s, v, sx, part, acc, n) && n < 2
    requires |sx| < |s| && 0 <= d == B.FromChar(s[|sx|], v.Safe())
    ensures Decoding(s, v, sx + [d], part, acc * 64 + d, n + 6)
  {
    B.Pow2Facts();
    Absorb(sx, 6, part, 8, acc, n, d);
  }

  /** ... or completing one. */
  lemma CompleteOctet(s: string, v: B.Variant, sx: seq<int>, part: bytes, acc: int, n: nat, d: int)
    requires Decoding(s, v, sx, part, acc, n) && n >= 2
    requires |sx| < |s| && 0 <= d == B.FromChar(s[|sx|], v.Safe())
    ensures var x := acc * 64 + d; var o := x / Pow2(n - 2);
      0 <= o < 256 && Decoding(s, v, sx + [d], part + [o], x % Pow2(n - 2), n - 2)
  {
    B.Pow2Facts();
    Absorb(sx, 6, part, 8, acc, n, d);
    Emit(sx + [d], 6, part, 8, acc * 64 + d, n + 6);
  }

  /** Shifts the character value d in and writes out the octet it completes, if any. */
  method PutChar(buf: array<byte>, d: int, pos: nat, acc: nat, nbits: nat,
                 ghost s: string, ghost v: B.Variant, ghost sx: seq<int>)
    returns (pos': nat, acc': nat, nbits': nat)
    requires pos <= buf.Length && Decoding(s, v, sx, buf[..pos], acc, nbits)
    requires |sx| < |s| && 0 <= d == B.FromChar(s[|sx|], v.Safe())
    requires nbits < 2 || pos < buf.Length
    modifies buf
    ensures pos' <= buf.Length && Decoding(s, v, sx + [d], buf[..pos'], acc', nbits')
  {
    if nbits < 2 {
      HoldChar(s, v, sx, buf[..pos], acc, nbits, d);
    } else {
      CompleteOctet(s, v, sx, buf[..pos], acc, nbits, d);
    }
    pos', acc', nbits' := pos, acc * 64 + d, nbits + 6;
    if nbits' >= 8 {
      nbits' := nbits' - 8;
      ghost var part := buf[..pos];
      var octet := acc' / Pow2(nbits');
      buf[pos] := octet;
      assert buf[..pos + 1] == part + [octet];
      pos', acc' := pos + 1, acc' % Pow2(nbits');
    }
  }

  /** Decodes the run of alphabet characters s starts with, or runs out of room. */
  method ReadSextets(buf: array<byte>, s: string, v: B.Variant)
    returns (fits: bool, ghost sx: seq<int>, i: nat, pos: nat, acc: nat, nbits: nat)
    modifies buf
    ensures i == |sx| <= |s| && pos <= buf.Length && Decoding(s, v, sx, buf[..pos], acc, nbits)
    ensures fits ==> i == |s| || B.FromChar(s[i], v.Safe()) < 0
    ensures !fits ==> i < |s| && B.FromChar(s[i], v.Safe()) >= 0 && 6 * (i + 1) >= 8 * (buf.Length + 1)
  {
    acc, nbits, pos, i, sx := 0, 0, 0, 0, [];
    NothingRead(s, v);
    while i < |s|
      invariant i == |sx| <= |s| && pos <= buf.Length
      invariant Decoding(s, v, sx, buf[..pos], acc, nbits)
    {
      var d := B.FromChar(s[i], v.Safe());
      if d < 0 { break; }
      if nbits + 6 >= 8 && pos >= buf.Length {
        return false, sx, i, pos, acc, nbits;
      }
      pos, acc, nbits := PutChar(buf, d, pos, acc, nbits, s, v, sx);
      sx, i := sx + [d], i + 1;
    }
    fits := true;
  }

  lemma NothingRead(s: string, v: B.Variant)
    ensures Decoding(s, v, [], [], 0, 0)
  {
  }

  /** Reads the padding characters s must go on with at position i. */
  method SkipPadding(s: string, i: nat, padding: nat) returns (ok: bool, end: nat)
    requires i <= |s|
    ensures ok <==> i + padding <= |s| && s[i..i + padding] == Repeat(B.PAD, padding)
    ensures ok ==> end == i + padding
  {
    var want := padding;
    end := i;
    while want > 0
      invariant 0 <= want <= padding && end == i + (padding - want) <= |s|
      invariant forall k :: i <= k < end ==> s[k] == B.PAD
    {
      if end >= |s| || s[end] != B.PAD {
        assert i + padding <= |s| ==> s[i..i + padding][end - i] == s[end];
        return false, end;
      }
      want, end := want - 1, end + 1;
    }
    ok := true;
  }

  /** Decodes s into buf. It succeeds exactly on the encodings that fit, and runs
      out of room only in a buffer smaller than the complete octets of s. */
  method SodiumBase642Bin(buf: array<byte>, s: string, v: B.Variant) returns (r: Status)
    modifies buf
    ensures r.Done? <==> Fits(s, v, buf.Length)
    ensures r.Done? ==> r.len <= buf.Length && B.Encode(buf[..r.len], v) == s
    ensures r.NoRoom? ==> buf.Length < 6 * |s| / 8
  {
    ghost var sx;
    var fits, i, pos, acc, nbits;
    fits, sx, i, pos, acc, nbits := ReadSextets(buf, s, v);
    if !fits {
      TooSmall(s, v, i, buf.Length);
      return NoRoom;
    }
    var accepted := CheckEnd(s, v, i, acc, nbits);
    Verdict(s, v, sx, buf[..pos], acc, nbits, buf.Length);
    r := if accepted then Done(pos) else Malformed;
  }

  /** The checks after the main loop: at most four bits pending, none of them set,
      then the padding the variant asks for, then nothing. */
  ghost predicate Accepted(s: string, v: B.Variant, i: nat, acc: int, n: nat)
    requires i <= |s|
  {
    var padding := if v.Padded() then n / 2 else 0;
    n <= 4 && acc == 0 && i + padding == |s| && s[i..i + padding] == Repeat(B.PAD, padding)
  }

  method CheckEnd(s: string, v: B.Variant, i: nat, acc: nat, nbits: nat) returns (accepted: bool)
    requires i <= |s|
    ensures accepted == Accepted(s, v, i, acc, nbits)
  {
    if nbits > 4 || acc != 0 {
      return false;
    }
    var ok, end := SkipPadding(s, i, if v.Padded() then nbits / 2 else 0);
    accepted := ok && end == |s|;
  }

  /** They decide whether s is an encoding. */
  lemma Verdict(s: string, v: B.Variant, sx: seq<int>, part: bytes, acc: int, n: nat, room: nat)
    requires Decoding(s, v, sx, part, acc, n) && |part| <= room
    requires |sx| == |s| || B.FromChar(s[|sx|], v.Safe()) < 0
    ensures Accepted(s, v, |sx|, acc, n) ==> B.Encode(part, v) == s
    ensures Accepted(s, v, |sx|, acc, n) <==> Fits(s, v, room)
  {
    OnlyCandidate(s, v, sx, part, acc, n, room);
    if n <= 4 && acc == 0 {
      Expected(s, v, sx, part, acc, n);
    }
    Decided(s, v, |sx|, acc, n, B.Encode(part, v));
  }

  lemma Decided(s: string, v: B.Variant, i: nat, acc: int, n: nat, candidate: string)
    requires i <= |s| && (candidate == s ==> n <= 4 && acc == 0)
    requires n <= 4 && acc == 0 ==> candidate == s[..i] + Repeat(B.PAD, if v.Padded() then n / 2 else 0)
    ensures Accepted(s, v, i, acc, n) <==> candidate == s
  {
  }

  lemma OnlyCandidate(s: string, v: B.Variant, sx: seq<int>, part: bytes, acc: int, n: nat, room: nat)
    requires Decoding(s, v, sx, part, acc, n) && |part| <= room
    requires |sx| == |s| || B.FromChar(s[|sx|], v.Safe()) < 0
    ensures Fits(s, v, room) <==> B.Encode(part, v) == s
    ensures B.Encode(part, v) == s ==> n <= 4 && acc == 0
  {
    if Fits(s, v, room) {
      var b: bytes :| |b| <= room && B.Encode(b, v) == s;
      NothingElse(s, v, sx, part, acc, n, b);
    }
    if B.Encode(part, v) == s {
      NothingElse(s, v, sx, part, acc, n, part);
    }
  }

  /** With no pending bit set, what s ought to be is determined. */
  lemma Expected(s: string, v: B.Variant, sx: seq<int>, part: bytes, acc: int, n: nat)
    requires Decoding(s, v, sx, part, acc, n) && n <= 4 && acc == 0
    ensures var padding := if v.Padded() then n / 2 else 0;
      B.Encode(part, v) == s[..|sx|] + Repeat(B.PAD, padding)
  {
    NoBitsPending(sx, part, n);
    B.SpellingIsUnique(sx, part);
    LeadIsChars(s, v, sx);
    PadCount(|sx|, |part|, n, v);
  }

  lemma NoBitsPending(sx: seq<int>, part: bytes, n: nat)
    requires Digits(sx, 6) && Pending(sx, 6, part, 8, 0, n) && n <= 4 && 8 * |part| + n == 6 * |sx|
    ensures B.Spells(sx, part)
  {
  }

  lemma PadCount(sextets: nat, octets: nat, n: nat, v: B.Variant)
    requires 8 * octets + n == 6 * sextets && n <= 4
    ensures B.PadLen(sextets, v) == if v.Padded() then n / 2 else 0
  {
    var pads, groups := 3 * sextets - 4 * octets, sextets - octets;
    assert n == 2 * pads && 0 <= pads <= 2;
    if pads == 0 {
      assert sextets == 4 * groups;
    } else if pads == 1 {
      assert sextets == 4 * (groups - 1) + 3;
    } else {
      assert sextets == 4 * (groups - 1) + 2;
    }
  }

  lemma LeadIsChars(s: string, v: B.Variant, sx: seq<int>)
    requires |sx| <= |s|
    requires forall k :: 0 <= k < |sx| ==> 0 <= sx[k] == B.FromChar(s[k], v.Safe())
    ensures (forall k :: 0 <= k < |sx| ==> sx[k] < 64) && s[..|sx|] == B.Chars(sx, v.Safe())
  {
  }

  /** The buffer decode allocates is enough for anything view can stand for. */
  lemma AlwaysRoom(view: string, v: B.Variant)
    ensures Fits(view, v, |view| / 4 * 3 + 2) <==> B.Encodable(view, v)
  {
  }

  /** decode: a buffer that always has room, then cut to what was written. */
  method Decode(view: string, v: B.Variant) returns (r: Result<bytes>)
    ensures r == match B.Decode(view, v) case Some(b) => Ok(b) case None => Err(DecodeError)
  {
    var buf := new byte[|view| / 4 * 3 + 2](_ => 0);
    B.DecodeCapacity(|view|);
    var status := SodiumBase642Bin(buf, view, v);
    if !status.Done? {
      assert !status.NoRoom?;
      AlwaysRoom(view, v);
      return Err(DecodeError);
    }
    B.DecodeInvertsEncode(view, buf[..status.len], v);
    r := Ok(buf[..status.len]);
  }
}

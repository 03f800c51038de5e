/** The Base64 encodings of RFC 4648: the standard alphabet of section 4, the URL
    and filename safe one of section 5, each with and without padding. Encoding is
    given group by group; decoding is its partial inverse, so that a decoder meets
    this specification only if it is strict (section 3.5). */
module Base64 {
  import opened Prelude
  import opened BitStrings

  datatype Variant = Original | OriginalNoPadding | UrlSafe | UrlSafeNoPadding {
    predicate Padded() { Original? || UrlSafe? }
    predicate Safe() { UrlSafe? || UrlSafeNoPadding? }
  }

  const PAD: char := '='

  function ToChar(d: int, safe: bool): char
    requires 0 <= d < 64
  {
    if d < 26 then ('A' as int + d) as char
    else if d < 52 then ('a' as int + (d - 26)) as char
    else if d < 62 then ('0' as int + (d - 52)) as char
    else if d == 62 then (if safe then '-' else '+')
    else (if safe then '_' else '/')
  }

  /** The value of an alphabet character, -1 for any other. */
  function FromChar(c: char, safe: bool): (d: int)
    ensures -1 <= d < 64
  {
    if 'A' <= c <= 'Z' then c as int - 'A' as int
    else if 'a' <= c <= 'z' then c as int - 'a' as int + 26
    else if '0' <= c <= '9' then c as int - '0' as int + 52
    else if c == (if safe then '-' else '+') then 62
    else if c == (if safe then '_' else '/') then 63
    else -1
  }

  /** The alphabet is 64 different characters, none of them the padding. */
  lemma AlphabetInverse(d: int, c: char, safe: bool)
    requires 0 <= d < 64
    ensures FromChar(c, safe) == d <==> c == ToChar(d, safe)
    ensures FromChar(PAD, safe) == -1
  {
  }

  const UPPER: string := "ABCDEFGHIJKLMNOPQRSTUVWXYZ"
  const LOWER: string := "abcdefghijklmnopqrstuvwxyz"
  const DECIMAL: string := "0123456789"

  /** Table 1 of RFC 4648 for the first two variants, table 2 for the others. */
  function Alphabet(v: Variant): (table: string)
    ensures |table| == 64
  {
    UPPER + LOWER + DECIMAL + (if v == UrlSafe || v == UrlSafeNoPadding then "-_" else "+/")
  }

  lemma UpperTable(d: int)
    requires 0 <= d < 26
    ensures UPPER[d] == ('A' as int + d) as char
  {
  }

  lemma LowerTable(d: int)
    requires 0 <= d < 26
    ensures LOWER[d] == ('a' as int + d) as char
  {
  }

  lemma DecimalTable(d: int)
    requires 0 <= d < 10
    ensures DECIMAL[d] == ('0' as int + d) as char
  {
  }

  lemma AlphabetAt(d: int, v: Variant)
    requires 0 <= d < 64
    ensures ToChar(d, v.Safe()) == Alphabet(v)[d]
  {
    if d < 26 {
      UpperTable(d);
    } else if d < 52 {
      LowerTable(d - 26);
    } else if d < 62 {
      DecimalTable(d - 52);
    }
  }

  // ---------------------------------------------------------------- encoding

  /** Three octets, 24 bits, become four sextets. */
  function Group(b0: byte, b1: byte, b2: byte): (r: seq<int>)
    ensures |r| == 4
    ensures forall i :: 0 <= i < |r| ==> 0 <= r[i] < 64
  {
    [b0 / 4, b0 % 4 * 16 + b1 / 16, b1 % 16 * 4 + b2 / 64, b2 % 64]
  }

  /** A last group of one or two octets is filled with zero bits on the right, and
      only the sextets that hold input bits are kept. */
  function Sextets(b: bytes): (r: seq<int>)
    ensures forall i :: 0 <= i < |r| ==> 0 <= r[i] < 64
    ensures 8 * |b| <= 6 * |r| < 8 * |b| + 6
  {
    if |b| == 0 then []
    else if |b| == 1 then Group(b[0], 0, 0)[..2]
    else if |b| == 2 then Group(b[0], b[1], 0)[..3]
    else Group(b[0], b[1], b[2]) + Sextets(b[3..])
  }

  function Chars(sx: seq<int>, safe: bool): (r: string)
    requires forall i :: 0 <= i < |sx| ==> 0 <= sx[i] < 64
    ensures |r| == |sx|
    ensures forall i :: 0 <= i < |r| ==> r[i] == ToChar(sx[i], safe)
  {
    seq(|sx|, i requires 0 <= i < |sx| => ToChar(sx[i], safe))
  }

  function PadLen(sextets: nat, v: Variant): nat {
    if v.Padded() then (4 - sextets % 4) % 4 else 0
  }

  function Encode(b: bytes, v: Variant): string {
    Chars(Sextets(b), v.Safe()) + Repeat(PAD, PadLen(|Sextets(b)|, v))
  }

  ghost predicate Encodable(s: string, v: Variant) {
    exists b: bytes :: Encode(b, v) == s
  }

  ghost function Decode(s: string, v: Variant): Option<bytes> {
    if Encodable(s, v) then
      var b: bytes :| Encode(b, v) == s;
      Some(b)
    else
      None
  }

  // ------------------------------------------- what the encoding says in bits

  /** The sextets of b spell the bits of b, followed by fewer than six zero bits. */
  ghost predicate Spells(sx: seq<int>, b: bytes) {
    && Digits(sx, 6)
    && 8 * |b| <= 6 * |sx| < 8 * |b| + 6
    && BitString(sx, 6) == BitString(b, 8) + Repeat(false, 6 * |sx| - 8 * |b|)
  }

  lemma Pow2Facts()
    ensures Pow2(2) == 4 && Pow2(4) == 16 && Pow2(6) == 64 && Pow2(8) == 256
  {
  }

  lemma FirstBoundary(b0: byte, b1: byte)
    ensures Bits(b0, 8) == Bits(b0 / 4, 6) + Bits(b0 % 4, 2)
    ensures Bits(b0 % 4 * 16 + b1 / 16, 6) == Bits(b0 % 4, 2) + Bits(b1 / 16, 4)
  {
    Pow2Facts();
    BitsSplit(b0, 6, 2);
    BitsConcat(b0 % 4, 2, b1 / 16, 4);
  }

  lemma SecondBoundary(b1: byte, b2: byte)
    ensures Bits(b1, 8) == Bits(b1 / 16, 4) + Bits(b1 % 16, 4)
    ensures Bits(b1 % 16 * 4 + b2 / 64, 6) == Bits(b1 % 16, 4) + Bits(b2 / 64, 2)
  {
    Pow2Facts();
    BitsSplit(b1, 4, 4);
    BitsConcat(b1 % 16, 4, b2 / 64, 2);
  }

  lemma LastBoundary(b2: byte)
    ensures Bits(b2, 8) == Bits(b2 / 64, 2) + Bits(b2 % 64, 6)
  {
    Pow2Facts();
    BitsSplit(b2, 2, 6);
  }

  /** Three octets and four sextets are two ways to cut 24 bits. */
  lemma GroupBits(b0: byte, b1: byte, b2: byte)
    ensures var g := Group(b0, b1, b2);
      Bits(b0, 8) + Bits(b1, 8) + Bits(b2, 8) == Bits(g[0], 6) + Bits(g[1], 6) + Bits(g[2], 6) + Bits(g[3], 6)
  {
    FirstBoundary(b0, b1);
    SecondBoundary(b1, b2);
    LastBoundary(b2);
    Regroup(Bits(b0 / 4, 6), Bits(b0 % 4, 2), Bits(b1 / 16, 4), Bits(b1 % 16, 4), Bits(b2 / 64, 2), Bits(b2 % 64, 6));
  }

  lemma GroupSpells(b0: byte, b1: byte, b2: byte)
    ensures BitString(Group(b0, b1, b2), 6) == BitString([b0, b1, b2], 8)
  {
    GroupBits(b0, b1, b2);
    FourSpellThree(Group(b0, b1, b2), [b0, b1, b2]);
  }

  lemma FourSpellThree(g: seq<int>, b: seq<int>)
    requires |g| == 4 && |b| == 3
    requires Bits(b[0], 8) + Bits(b[1], 8) + Bits(b[2], 8)
      == Bits(g[0], 6) + Bits(g[1], 6) + Bits(g[2], 6) + Bits(g[3], 6)
    ensures BitString(g, 6) == BitString(b, 8)
  {
    assert g == [g[0], g[1], g[2], g[3]] && b == [b[0], b[1], b[2]];
    BitStringThree(b[0], b[1], b[2], 8);
    BitStringFour(g[0], g[1], g[2], g[3], 6);
  }

  /** Cutting the zero octets off a filled-up group. */
  lemma ShortGroupSpells(b: bytes, zeros: bytes, sx: seq<int>, rest: seq<int>)
    requires BitString(sx + rest, 6) == BitString(b + zeros, 8)
    requires forall i :: 0 <= i < |zeros| ==> zeros[i] == 0
    requires |b| * 8 <= |sx| * 6
    ensures BitString(sx, 6) == BitString(b, 8) + Repeat(false, |sx| * 6 - |b| * 8)
  {
    BitStringConcat(b, zeros, 8);
    BitStringConcat(sx, rest, 6);
    ZeroString(zeros, 8);
    assert BitString(sx, 6) == BitString(sx + rest, 6)[..|sx| * 6];
  }

  lemma {:induction false} ZeroString(zeros: seq<int>, w: nat)
    requires w > 0
    requires forall i :: 0 <= i < |zeros| ==> zeros[i] == 0
    ensures BitString(zeros, w) == Repeat(false, |zeros| * w)
  {
    if zeros != [] {
      var rest := zeros[..|zeros| - 1];
      assert zeros == rest + [0] && |rest| * w + w == |zeros| * w;
      ZeroString(rest, w);
      BitStringSnoc(rest, 0, w);
      BitsOfZero(w);
    }
  }

  lemma OneOctetSpells(b0: byte)
    ensures BitString(Group(b0, 0, 0)[..2], 6) == BitString([b0], 8) + Repeat(false, 4)
  {
    var g := Group(b0, 0, 0);
    GroupSpells(b0, 0, 0);
    assert [b0] + [0, 0] == [b0, 0, 0] && g[..2] + g[2..] == g;
    ShortGroupSpells([b0], [0, 0], g[..2], g[2..]);
  }

  lemma TwoOctetsSpell(b0: byte, b1: byte)
    ensures BitString(Group(b0, b1, 0)[..3], 6) == BitString([b0, b1], 8) + Repeat(false, 2)
  {
    var g := Group(b0, b1, 0);
    GroupSpells(b0, b1, 0);
    assert [b0, b1] + [0] == [b0, b1, 0] && g[..3] + g[3..] == g;
    ShortGroupSpells([b0, b1], [0], g[..3], g[3..]);
  }

  /** Section 4 of RFC 4648: the characters carry the input's bits in order. */
  lemma {:induction false} SextetsSpell(b: bytes)
    ensures Spells(Sextets(b), b)
  {
    Pow2Facts();
    if |b| == 0 {
    } else if |b| == 1 {
      assert b == [b[0]];
      OneOctetSpells(b[0]);
    } else if |b| == 2 {
      assert b == [b[0], b[1]];
      TwoOctetsSpell(b[0], b[1]);
    } else {
      SextetsSpell(b[3..]);
      GroupBefore(b[0], b[1], b[2], b[3..], Sextets(b[3..]));
      assert b == [b[0], b[1], b[2]] + b[3..];
    }
  }

  lemma GroupBefore(b0: byte, b1: byte, b2: byte, rest: bytes, sx: seq<int>)
    requires Spells(sx, rest)
    ensures Spells(Group(b0, b1, b2) + sx, [b0, b1, b2] + rest)
  {
    Pow2Facts();
    GroupSpells(b0, b1, b2);
    BitStringConcat([b0, b1, b2], rest, 8);
    BitStringConcat(Group(b0, b1, b2), sx, 6);
    SpellMore(BitString([b0, b1, b2], 8), BitString(rest, 8), BitString(sx, 6), 6 * |sx| - 8 * |rest|);
  }

  lemma SpellMore(g: seq<bool>, p: seq<bool>, q: seq<bool>, k: nat)
    requires q == p + Repeat(false, k)
    ensures g + q == g + p + Repeat(false, k)
  {
  }

  /** Only one string of sextets spells b, ... */
  lemma SpellingIsUnique(sx: seq<int>, b: bytes)
    requires Spells(sx, b)
    ensures sx == Sextets(b)
  {
    SextetsSpell(b);
    BitStringInjective(sx, Sextets(b), 6);
  }

  /** ... and it spells nothing but b. */
  lemma SpellsOne(sx: seq<int>, a: bytes, b: bytes)
    requires Spells(sx, a) && Spells(sx, b)
    ensures a == b
  {
    Pow2Facts();
    var k := 6 * |sx| - 8 * |a|;
    assert |a| == |b|;
    BitStringCancel(a, b, 8, Repeat(false, k), Repeat(false, k));
  }

  /** Sections 3.2, 4 and 5 of RFC 4648, without a word on how it is computed: sextets
      that spell b, each written as its character in the table of the variant, then as
      many '=' as make the length a multiple of four, or none. */
  ghost predicate Rfc4648(s: string, b: bytes, v: Variant) {
    exists sx: seq<int> :: Spells(sx, b) && Written(s, sx, v)
  }

  ghost predicate Written(s: string, sx: seq<int>, v: Variant) {
    && |s| == (if v == Original || v == UrlSafe then (|sx| + 3) / 4 * 4 else |sx|)
    && (forall k :: 0 <= k < |sx| ==> 0 <= sx[k] < 64 && s[k] == Alphabet(v)[sx[k]])
    && (forall k :: |sx| <= k < |s| ==> s[k] == '=')
  }

  /** That is what Encode makes of b, and nothing else is. */
  lemma EncodeIsRfc4648(s: string, b: bytes, v: Variant)
    ensures Encode(b, v) == s <==> Rfc4648(s, b, v)
  {
    SextetsSpell(b);
    EncodeIsWritten(b, v);
    if Rfc4648(s, b, v) {
      var sx :| Spells(sx, b) && Written(s, sx, v);
      SpellingIsUnique(sx, b);
      WrittenOnce(s, Encode(b, v), sx, v);
    }
  }

  lemma EncodeIsWritten(b: bytes, v: Variant)
    ensures Written(Encode(b, v), Sextets(b), v)
  {
    var sx := Sextets(b);
    CharsOfTable(sx, v);
    ToMultipleOfFour(|sx|, v);
    WrittenPadded(Chars(sx, v.Safe()), sx, v, PadLen(|sx|, v));
  }

  lemma CharsOfTable(sx: seq<int>, v: Variant)
    requires forall k :: 0 <= k < |sx| ==> 0 <= sx[k] < 64
    ensures forall k :: 0 <= k < |sx| ==> Chars(sx, v.Safe())[k] == Alphabet(v)[sx[k]]
  {
    forall k | 0 <= k < |sx|
      ensures Chars(sx, v.Safe())[k] == Alphabet(v)[sx[k]]
    {
      AlphabetAt(sx[k], v);
    }
  }

  lemma ToMultipleOfFour(n: nat, v: Variant)
    ensures n + PadLen(n, v) == if v == Original || v == UrlSafe then (n + 3) / 4 * 4 else n
  {
  }

  lemma WrittenPadded(chars: string, sx: seq<int>, v: Variant, pads: nat)
    requires |chars| == |sx| && forall k :: 0 <= k < |sx| ==> 0 <= sx[k] < 64 && chars[k] == Alphabet(v)[sx[k]]
    requires |sx| + pads == if v == Original || v == UrlSafe then (|sx| + 3) / 4 * 4 else |sx|
    ensures Written(chars + Repeat(PAD, pads), sx, v)
  {
    var s := chars + Repeat(PAD, pads);
    assert forall k :: 0 <= k < |sx| ==> s[k] == chars[k];
  }

  lemma WrittenOnce(s: string, t: string, sx: seq<int>, v: Variant)
    requires Written(s, sx, v) && Written(t, sx, v)
    ensures s == t
  {
    forall k | 0 <= k < |s|
      ensures s[k] == t[k]
    {
    }
  }

  // ------------------------------------------------------------- the inverse

  lemma EncodedCharAt(b: bytes, v: Variant, k: nat)
    requires k < |Encode(b, v)|
    ensures FromChar(Encode(b, v)[k], v.Safe()) == if k < |Sextets(b)| then Sextets(b)[k] else -1
    ensures k >= |Sextets(b)| ==> Encode(b, v)[k] == PAD
  {
  }

  /** Where a string stops being alphabet characters is where its sextets end. */
  lemma LeadingChars(b: bytes, v: Variant, i: nat, sx: seq<int>)
    requires i == |sx| <= |Encode(b, v)|
    requires forall k :: 0 <= k < i ==> 0 <= sx[k] == FromChar(Encode(b, v)[k], v.Safe())
    requires i == |Encode(b, v)| || FromChar(Encode(b, v)[i], v.Safe()) < 0
    ensures sx == Sextets(b)
  {
    var s, t := Encode(b, v), Sextets(b);
    forall k | 0 <= k < |s|
      ensures FromChar(s[k], v.Safe()) == if k < |t| then t[k] else -1
    {
      EncodedCharAt(b, v, k);
    }
    SameLead(seq(|s|, k requires 0 <= k < |s| => FromChar(s[k], v.Safe())), sx, t);
  }

  lemma SameLead(f: seq<int>, p: seq<int>, q: seq<int>)
    requires p <= f && q <= f
    requires forall k :: 0 <= k < |p| ==> p[k] >= 0
    requires forall k :: 0 <= k < |q| ==> q[k] >= 0
    requires |p| < |f| ==> f[|p|] < 0
    requires |q| < |f| ==> f[|q|] < 0
    ensures p == q
  {
  }

  lemma EncodeInjective(a: bytes, b: bytes, v: Variant)
    requires Encode(a, v) == Encode(b, v)
    ensures a == b
  {
    var s, t := Encode(a, v), Sextets(a);
    forall k | 0 <= k < |s|
      ensures FromChar(s[k], v.Safe()) == if k < |t| then t[k] else -1
    {
      EncodedCharAt(a, v, k);
    }
    LeadingChars(b, v, |t|, t);
    SextetsSpell(a);
    SextetsSpell(b);
    SpellsOne(t, a, b);
  }

  /** Decoding and encoding are mutually inverse: what encode produces decodes to
      its input, and a string that decodes at all is what encode makes of the result. */
  lemma DecodeInvertsEncode(s: string, b: bytes, v: Variant)
    ensures Decode(s, v) == Some(b) <==> Encode(b, v) == s
  {
    if Encode(b, v) == s {
      var c: bytes :| Encode(c, v) == s && Decode(s, v) == Some(c);
      EncodeInjective(b, c, v);
    }
  }

  /** Exact size of the output, without the terminator. */
  function EncodedLen(n: nat, v: Variant): nat {
    if v.Padded() then (n + 2) / 3 * 4 else n / 3 * 4 + (if n % 3 == 0 then 0 else n % 3 + 1)
  }

  lemma SextetCount(n: nat, m: nat, v: Variant)
    requires 8 * n <= 6 * m < 8 * n + 6
    ensures m + PadLen(m, v) == EncodedLen(n, v)
  {
    assert m == n / 3 * 4 + (if n % 3 == 0 then 0 else n % 3 + 1);
  }

  lemma EncodedLenExact(b: bytes, v: Variant)
    ensures |Encode(b, v)| == EncodedLen(|b|, v)
  {
    SextetCount(|b|, |Sextets(b)|, v);
  }

  /** The most bytes that can be complete once n characters are consumed is
      6n/8 rounded down, and the decode buffer always has room for them. */
  lemma DecodeCapacity(n: nat)
    ensures 6 * n / 8 <= n / 4 * 3 + 2
    ensures n % 4 == 3 ==> 6 * n / 8 == n / 4 * 3 + 2
  {
  }

  /** The first group of the example in the documentation of decode, in any variant. */
  lemma DocumentedGroup(v: Variant)
    ensures Encode([72, 101, 108], v) == "SGVs"
  {
    SextetsOfOneGroup(72, 101, 108);
    assert Group(72, 101, 108) == [18, 6, 21, 44];
  }

  lemma SextetsOfOneGroup(b0: byte, b1: byte, b2: byte)
    ensures Sextets([b0, b1, b2]) == Group(b0, b1, b2)
  {
    assert [b0, b1, b2][3..] == [];
  }

  // -------------------------------------------------- mixing the variants

  /** The encoding of b has none of the two characters the alphabets differ in. */
  ghost predicate NoSpecials(b: bytes) {
    forall i :: 0 <= i < |Sextets(b)| ==> Sextets(b)[i] < 62
  }

  /** The two variants write b as the same text: they share the alphabet or b needs no
      character they differ in, and they share the padding or b needs none. */
  ghost predicate Common(b: bytes, v: Variant, w: Variant) {
    && (v.Safe() == w.Safe() || NoSpecials(b))
    && (v.Padded() == w.Padded() || |b| % 3 == 0)
  }

  lemma CommonText(b: bytes, v: Variant, w: Variant)
    requires Common(b, v, w)
    ensures Encode(b, v) == Encode(b, w)
  {
    var sx := Sextets(b);
    assert Chars(sx, v.Safe()) == Chars(sx, w.Safe());
    NoPadding(|b|, |sx|, v);
    NoPadding(|b|, |sx|, w);
  }

  lemma NoPadding(octets: nat, sextets: nat, v: Variant)
    requires 8 * octets <= 6 * sextets < 8 * octets + 6
    ensures PadLen(sextets, v) == 0 <==> !v.Padded() || octets % 3 == 0
  {
    SextetCount(octets, sextets, v);
  }

  /** A character both alphabets know means the same in both, and is not a special one. */
  lemma SharedCharacter(d: int, safe: bool)
    requires 0 <= d < 64
    ensures FromChar(ToChar(d, safe), !safe) == if d < 62 then d else -1
  {
  }

  /** If the variants write b and c as the same text, b is c, in a common text. */
  lemma SameTextIsCommon(b: bytes, v: Variant, c: bytes, w: Variant)
    requires Encode(b, v) == Encode(c, w)
    ensures b == c && Common(b, v, w)
  {
    var s, sx := Encode(b, v), Sextets(b);
    forall k | 0 <= k < |sx|
      ensures FromChar(s[k], w.Safe()) == sx[k] && (v.Safe() == w.Safe() || sx[k] < 62)
    {
      ReadBoth(b, v, c, w, k);
    }
    if |sx| < |s| {
      EncodedCharAt(b, v, |sx|);
    }
    LeadingChars(c, w, |sx|, sx);
    SextetsSpell(b);
    SextetsSpell(c);
    SpellsOne(sx, b, c);
    NoPadding(|b|, |sx|, v);
    NoPadding(|b|, |sx|, w);
  }

  lemma ReadBoth(b: bytes, v: Variant, c: bytes, w: Variant, k: nat)
    requires Encode(b, v) == Encode(c, w) && k < |Sextets(b)|
    ensures FromChar(Encode(b, v)[k], w.Safe()) == Sextets(b)[k]
    ensures v.Safe() == w.Safe() || Sextets(b)[k] < 62
  {
    var d := Sextets(b)[k];
    EncodedCharAt(b, v, k);
    EncodedCharAt(c, w, k);
    AlphabetInverse(d, Encode(b, v)[k], v.Safe());
    SharedCharacter(d, v.Safe());
  }

  /** What becomes of an encoding under another variant, for every pair of variants. The
      documentation says a mismatch is always rejected; it is exactly when the texts of
      the two variants differ. */
  lemma VariantMismatch(b: bytes, v: Variant, w: Variant)
    ensures Encode(b, v) == Encode(b, w) <==> Common(b, v, w)
    ensures Decode(Encode(b, v), w) == if Common(b, v, w) then Some(b) else None
  {
    var s := Encode(b, v);
    if Common(b, v, w) {
      CommonText(b, v, w);
    }
    forall c: bytes | Encode(c, w) == s
      ensures c == b && Common(b, v, w)
    {
      SameTextIsCommon(b, v, c, w);
    }
    DecodeInvertsEncode(s, b, w);
  }

  /** A mismatch that is accepted, ... */
  lemma MismatchAccepted()
    ensures Decode(Encode([72, 101, 108], UrlSafeNoPadding), Original) == Some([72, 101, 108])
  {
    DocumentedGroup(UrlSafeNoPadding);
    DocumentedGroup(Original);
    DecodeInvertsEncode("SGVs", [72, 101, 108], Original);
  }

  /** ... and one that is rejected. */
  lemma MismatchRejected()
    ensures Decode(Encode([0], UrlSafeNoPadding), Original) == None
  {
    VariantMismatch([0], UrlSafeNoPadding, Original);
  }
}

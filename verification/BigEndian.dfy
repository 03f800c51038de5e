/** Big-endian byte strings, and the two timestamp helpers of the token format. */
module BigEndian {
  import opened Prelude

  /** The n low-order base-256 digits of x, most significant first. */
  function Digits(x: nat, n: nat): (b: bytes)
    ensures |b| == n
  {
    if n == 0 then [] else Digits(x / 256, n - 1) + [x % 256]
  }

  function Value(b: bytes): nat {
    if b == [] then 0 else Value(b[..|b| - 1]) * 256 + b[|b| - 1]
  }

  function Pow256(n: nat): (p: nat)
    ensures p > 0
  {
    if n == 0 then 1 else 256 * Pow256(n - 1)
  }

  lemma {:induction false} ValueOfDigits(x: nat, n: nat)
    requires x < Pow256(n)
    ensures Value(Digits(x, n)) == x
  {
    if n > 0 {
      assert x / 256 < Pow256(n - 1);
      ValueOfDigits(x / 256, n - 1);
      assert Digits(x, n)[..n - 1] == Digits(x / 256, n - 1);
    }
  }

  lemma {:induction false} DigitsOfValue(b: bytes)
    ensures Value(b) < Pow256(|b|)
    ensures Digits(Value(b), |b|) == b
  {
    if b != [] {
      var q, d := b[..|b| - 1], b[|b| - 1];
      DigitsOfValue(q);
      assert Value(b) / 256 == Value(q) && Value(b) % 256 == d;
      assert b == q + [d];
    }
  }

  /** a comes before b in byte-wise (memcmp) order. */
  ghost predicate Before(a: bytes, b: bytes)
    requires |a| == |b|
  {
    exists k :: 0 <= k < |a| && a[k] < b[k] && forall j :: 0 <= j < k ==> a[j] == b[j]
  }

  /** Appending a byte to both sides only breaks ties. */
  lemma BeforeSnoc(p: bytes, q: bytes, x: byte, y: byte)
    requires |p| == |q|
    ensures Before(p + [x], q + [y]) <==> Before(p, q) || (p == q && x < y)
  {
    var a, b := p + [x], q + [y];
    assert forall j :: 0 <= j < |p| ==> a[j] == p[j] && b[j] == q[j];
    if Before(p, q) {
      var k :| 0 <= k < |p| && p[k] < q[k] && forall j :: 0 <= j < k ==> p[j] == q[j];
      assert a[k] < b[k] && forall j :: 0 <= j < k ==> a[j] == b[j];
    }
    if p == q && x < y {
      assert a[|p|] < b[|p|];
    }
    if Before(a, b) {
      var k :| 0 <= k < |a| && a[k] < b[k] && forall j :: 0 <= j < k ==> a[j] == b[j];
      if k < |p| {
        assert p[k] < q[k] && forall j :: 0 <= j < k ==> p[j] == q[j];
      } else {
        assert p == q;
      }
    }
  }

  /** Numeric order is byte-wise order, which is what big-endian is for. */
  lemma {:induction false} OrderIsLexicographic(a: bytes, b: bytes)
    requires |a| == |b|
    ensures Value(a) < Value(b) <==> Before(a, b)
    ensures Value(a) == Value(b) <==> a == b
  {
    if a != [] {
      var n := |a| - 1;
      OrderIsLexicographic(a[..n], b[..n]);
      BeforeSnoc(a[..n], b[..n], a[n], b[n]);
      assert a == a[..n] + [a[n]] && b == b[..n] + [b[n]];
    }
  }

  const P1: int := 0x100
  const P2: int := 0x1_0000
  const P3: int := 0x100_0000
  const P4: int := 0x1_0000_0000
  const P5: int := 0x100_0000_0000
  const P6: int := 0x1_0000_0000_0000
  const P7: int := 0x100_0000_0000_0000

  lemma Pow256OfEight()
    ensures Pow256(8) == U64_LIMIT
  {
  }

  /** Shifts and masks of an unsigned value are quotients and remainders. */
  lemma EightDigits(x: u64)
    ensures Digits(x, 8) == [x / P7 % 256, x / P6 % 256, x / P5 % 256, x / P4 % 256,
                             x / P3 % 256, x / P2 % 256, x / P1 % 256, x % 256]
  {
    var x1 := x / 256;
    var x2 := x1 / 256;
    var x3 := x2 / 256;
    var x4 := x3 / 256;
    var x5 := x4 / 256;
    var x6 := x5 / 256;
    var x7 := x6 / 256;
    assert x2 == x / P2 && x3 == x / P3 && x4 == x / P4 && x5 == x / P5 && x6 == x / P6 && x7 == x / P7;
    assert Digits(x7, 1) == [x7 % 256];
    assert Digits(x6, 2) == [x7 % 256, x6 % 256];
    assert Digits(x5, 3) == [x7 % 256, x6 % 256, x5 % 256];
    assert Digits(x4, 4) == [x7 % 256, x6 % 256, x5 % 256, x4 % 256];
    assert Digits(x3, 5) == [x7 % 256, x6 % 256, x5 % 256, x4 % 256, x3 % 256];
    assert Digits(x2, 6) == [x7 % 256, x6 % 256, x5 % 256, x4 % 256, x3 % 256, x2 % 256];
    assert Digits(x1, 7) == [x7 % 256, x6 % 256, x5 % 256, x4 % 256, x3 % 256, x2 % 256, x1 % 256];
  }

  /** Writes val to the eight bytes of dst from position at. */
  method WriteU64Be(dst: array<byte>, at: nat, val: u64)
    requires at + 8 <= dst.Length
    modifies dst
    ensures dst[at..at + 8] == Digits(val, 8)
    ensures forall k :: 0 <= k < dst.Length && !(at <= k < at + 8) ==> dst[k] == old(dst[k])
  {
    dst[at] := val / P7 % 256;
    dst[at + 1] := val / P6 % 256;
    dst[at + 2] := val / P5 % 256;
    dst[at + 3] := val / P4 % 256;
    dst[at + 4] := val / P3 % 256;
    dst[at + 5] := val / P2 % 256;
    dst[at + 6] := val / P1 % 256;
    dst[at + 7] := val % 256;
    EightDigits(val);
  }

  /** The value of the eight bytes of src. */
  function ReadU64Be(src: bytes): u64
    requires |src| == 8
  {
    src[0] * P7 + src[1] * P6 + src[2] * P5 + src[3] * P4 + src[4] * P3 + src[5] * P2 + src[6] * P1 + src[7]
  }

  lemma EightBytes(src: bytes)
    requires |src| == 8
    ensures ReadU64Be(src) == Value(src)
  {
    assert src[..1][..0] == [];
    assert Value(src[..1]) == src[0];
    assert src[..2][..1] == src[..1];
    assert Value(src[..2]) == src[0] * P1 + src[1];
    assert src[..3][..2] == src[..2];
    assert Value(src[..3]) == src[0] * P2 + src[1] * P1 + src[2];
    assert src[..4][..3] == src[..3];
    assert Value(src[..4]) == src[0] * P3 + src[1] * P2 + src[2] * P1 + src[3];
    assert src[..5][..4] == src[..4];
    assert Value(src[..5]) == src[0] * P4 + src[1] * P3 + src[2] * P2 + src[3] * P1 + src[4];
    assert src[..6][..5] == src[..5];
    assert Value(src[..6]) == src[0] * P5 + src[1] * P4 + src[2] * P3 + src[3] * P2 + src[4] * P1 + src[5];
    assert src[..7][..6] == src[..6];
    assert Value(src[..7])
      == src[0] * P6 + src[1] * P5 + src[2] * P4 + src[3] * P3 + src[4] * P2 + src[5] * P1 + src[6];
    assert src == src[..8] && src[..8][..7] == src[..7];
  }

  /** The codec is a bijection between 64-bit values and eight-byte strings. */
  lemma TimestampCodec(x: u64, b: bytes)
    requires |b| == 8
    ensures ReadU64Be(Digits(x, 8)) == x
    ensures Digits(ReadU64Be(b), 8) == b
  {
    EightBytes(b);
    EightBytes(Digits(x, 8));
    Pow256OfEight();
    ValueOfDigits(x, 8);
    DigitsOfValue(b);
  }
}

/** Bit strings, most significant bit first: the common ground between a string
    of octets and a string of sextets. */
module BitStrings {
  import opened Prelude

  function Pow2(n: nat): (p: nat)
    ensures p > 0
  {
    if n == 0 then 1 else 2 * Pow2(n - 1)
  }

  /** The low n bits of x. */
  ghost function Bits(x: int, n: nat): (r: seq<bool>)
    ensures |r| == n
  {
    seq(n, i requires 0 <= i < n => x / Pow2(n - 1 - i) % 2 == 1)
  }

  lemma DivTwice(x: int, p: int)
    requires p > 0
    ensures x / (2 * p) == x / 2 / p
  {
    var q, r := x / 2 / p, x / 2 % p;
    assert x == 2 * (q * p + r) + x % 2;
    assert x == q * (2 * p) + (2 * r + x % 2);
    DivUnique(x, 2 * p, q, 2 * r + x % 2);
  }

  lemma MultipleGrows(a: int, b: int, d: int)
    requires a <= b && d > 0
    ensures a * d <= b * d
  {
  }

  lemma MultipleBound(k: int, d: int)
    requires d > 0 && -d < k * d < d
    ensures k == 0
  {
  }

  lemma DivUnique(x: int, d: int, q: int, r: int)
    requires d > 0 && x == q * d + r && 0 <= r < d
    ensures x / d == q && x % d == r
  {
    var q', r' := x / d, x % d;
    assert (q - q') * d == r' - r;
    MultipleBound(q - q', d);
  }

  /** The bits of x are those of its half, then its parity. */
  lemma BitsStep(x: int, n: nat)
    requires n > 0
    ensures Bits(x, n) == Bits(x / 2, n - 1) + [x % 2 == 1]
  {
    forall i | 0 <= i < n - 1
      ensures Bits(x, n)[i] == Bits(x / 2, n - 1)[i]
    {
      DivTwice(x, Pow2(n - 2 - i));
      assert Pow2(n - 1 - i) == 2 * Pow2(n - 2 - i);
    }
    assert Pow2(0) == 1;
  }

  /** Bit i of the digits of xs written one after the other. */
  ghost predicate DigitBit(xs: seq<int>, w: nat, i: nat)
    requires w > 0
  {
    i / w < |xs| && Bits(xs[i / w], w)[i % w]
  }

  /** The digits of xs written one after the other, w bits each. */
  ghost function BitString(xs: seq<int>, w: nat): (r: seq<bool>)
    requires w > 0
    ensures |r| == |xs| * w
  {
    seq(|xs| * w, i requires 0 <= i => DigitBit(xs, w, i))
  }

  lemma PositionBound(k: nat, n: nat, w: nat, j: nat)
    requires k < n && j < w
    ensures 0 <= k * w + j < n * w
  {
    MultipleGrows(0, k, w);
    MultipleGrows(k + 1, n, w);
  }

  lemma BitAt(xs: seq<int>, w: nat, k: nat, j: nat)
    requires w > 0 && k < |xs| && j < w
    ensures 0 <= k * w + j < |xs| * w && BitString(xs, w)[k * w + j] == Bits(xs[k], w)[j]
  {
    PositionBound(k, |xs|, w, j);
    DivUnique(k * w + j, w, k, j);
    assert BitString(xs, w)[k * w + j] == DigitBit(xs, w, k * w + j);
  }

  lemma BitsBefore(xs: seq<int>, x: int, w: nat, i: nat)
    requires w > 0 && i < |xs| * w
    ensures i < |xs + [x]| * w && BitString(xs + [x], w)[i] == BitString(xs, w)[i]
  {
  }

  lemma BitStringSnoc(xs: seq<int>, x: int, w: nat)
    requires w > 0
    ensures BitString(xs + [x], w) == BitString(xs, w) + Bits(x, w)
  {
    var s, p, q := BitString(xs + [x], w), BitString(xs, w), Bits(x, w);
    assert |s| == |p| + |q|;
    forall i | 0 <= i < |p|
      ensures s[i] == p[i]
    {
      BitsBefore(xs, x, w, i);
    }
    forall j | 0 <= j < |q|
      ensures s[|p| + j] == q[j]
    {
      BitAt(xs + [x], w, |xs|, j);
    }
    SplitEqual(s, p, q);
  }

  lemma SplitEqual(s: seq<bool>, p: seq<bool>, q: seq<bool>)
    requires |s| == |p| + |q|
    requires forall i :: 0 <= i < |p| ==> s[i] == p[i]
    requires forall j :: 0 <= j < |q| ==> s[|p| + j] == q[j]
    ensures s == p + q
  {
  }

  ghost predicate Digits(xs: seq<int>, w: nat) {
    forall i :: 0 <= i < |xs| ==> 0 <= xs[i] < Pow2(w)
  }

  /** Juxtaposing bit strings is shifting and adding. */
  lemma {:induction false} BitsConcat(x: int, m: nat, y: int, n: nat)
    requires 0 <= y < Pow2(n)
    ensures Bits(x * Pow2(n) + y, m + n) == Bits(x, m) + Bits(y, n)
  {
    if n == 0 {
      assert Pow2(0) == 1;
      assert x * Pow2(n) + y == x;
      assert Bits(x, m) + Bits(y, 0) == Bits(x, m);
    } else {
      var z := x * Pow2(n - 1);
      assert x * Pow2(n) == 2 * z by {
        assert Pow2(n) == 2 * Pow2(n - 1);
        assert x * (2 * Pow2(n - 1)) == 2 * (x * Pow2(n - 1));
      }
      assert (2 * z + y) / 2 == z + y / 2 && (2 * z + y) % 2 == y % 2;
      BitsConcat(x, m, y / 2, n - 1);
      BitsStep(2 * z + y, m + n);
      BitsStep(y, n);
      assert Bits(x, m) + Bits(y / 2, n - 1) + [y % 2 == 1] == Bits(x, m) + Bits(y, n);
    }
  }

  /** Splitting a number at bit n, the converse reading of BitsConcat. */
  lemma BitsSplit(z: int, m: nat, n: nat)
    requires z >= 0
    ensures Bits(z, m + n) == Bits(z / Pow2(n), m) + Bits(z % Pow2(n), n)
  {
    assert z == z / Pow2(n) * Pow2(n) + z % Pow2(n);
    BitsConcat(z / Pow2(n), m, z % Pow2(n), n);
  }

  lemma {:induction false} BitsInjective(x: int, y: int, n: nat)
    requires 0 <= x < Pow2(n) && 0 <= y < Pow2(n)
    requires Bits(x, n) == Bits(y, n)
    ensures x == y
  {
    if n > 0 {
      var p, q := Bits(x, n), Bits(y, n);
      BitsStep(x, n);
      BitsStep(y, n);
      assert p[..n - 1] == Bits(x / 2, n - 1) && q[..n - 1] == Bits(y / 2, n - 1);
      assert p[n - 1] == (x % 2 == 1) && q[n - 1] == (y % 2 == 1);
      BitsInjective(x / 2, y / 2, n - 1);
    }
  }

  lemma {:induction false} BitsOfZero(n: nat)
    ensures Bits(0, n) == Repeat(false, n)
  {
    if n > 0 {
      BitsStep(0, n);
      BitsOfZero(n - 1);
    }
  }

  lemma {:induction false} BitStringConcat(xs: seq<int>, ys: seq<int>, w: nat)
    requires w > 0
    ensures BitString(xs + ys, w) == BitString(xs, w) + BitString(ys, w)
  {
    if ys == [] {
      assert xs + ys == xs;
    } else {
      var zs, y := ys[..|ys| - 1], ys[|ys| - 1];
      assert xs + ys == xs + zs + [y] && ys == zs + [y];
      BitStringConcat(xs, zs, w);
      BitStringSnoc(xs + zs, y, w);
      BitStringSnoc(zs, y, w);
      assert BitString(xs, w) + BitString(zs, w) + Bits(y, w) == BitString(xs, w) + (BitString(zs, w) + Bits(y, w));
    }
  }

  lemma BitStringOne(x: int, w: nat)
    requires w > 0
    ensures BitString([x], w) == Bits(x, w)
  {
  }

  lemma {:induction false} BitStringInjective(xs: seq<int>, ys: seq<int>, w: nat)
    requires w > 0 && |xs| == |ys| && Digits(xs, w) && Digits(ys, w)
    requires BitString(xs, w) == BitString(ys, w)
    ensures xs == ys
  {
    if xs != [] {
      var n := |xs| - 1;
      var p, q := BitString(xs[..n], w), BitString(ys[..n], w);
      assert xs == xs[..n] + [xs[n]] && ys == ys[..n] + [ys[n]];
      BitStringSnoc(xs[..n], xs[n], w);
      BitStringSnoc(ys[..n], ys[n], w);
      Cancel(p, Bits(xs[n], w), q, Bits(ys[n], w));
      BitStringInjective(xs[..n], ys[..n], w);
      BitsInjective(xs[n], ys[n], w);
    }
  }

  lemma Cancel(p: seq<bool>, s: seq<bool>, q: seq<bool>, t: seq<bool>)
    requires p + s == q + t && |p| == |q|
    ensures p == q && s == t
  {
    assert p == (p + s)[..|p|] && q == (q + t)[..|p|];
    assert s == (p + s)[|p|..] && t == (q + t)[|p|..];
  }

  /** Two strings of w-bit digits that agree up to what follows them are equal. */
  lemma BitStringCancel(xs: seq<int>, ys: seq<int>, w: nat, s: seq<bool>, t: seq<bool>)
    requires w > 0 && |xs| == |ys| && Digits(xs, w) && Digits(ys, w)
    requires BitString(xs, w) + s == BitString(ys, w) + t
    ensures xs == ys && s == t
  {
    Cancel(BitString(xs, w), s, BitString(ys, w), t);
    BitStringInjective(xs, ys, w);
  }

  lemma BitStringTwo(x: int, y: int, w: nat)
    requires w > 0
    ensures BitString([x, y], w) == Bits(x, w) + Bits(y, w)
  {
    assert [x, y] == [x] + [y];
    BitStringOne(x, w);
    BitStringSnoc([x], y, w);
  }

  lemma BitStringThree(x: int, y: int, z: int, w: nat)
    requires w > 0
    ensures BitString([x, y, z], w) == Bits(x, w) + Bits(y, w) + Bits(z, w)
  {
    assert [x, y, z] == [x, y] + [z];
    BitStringTwo(x, y, w);
    BitStringSnoc([x, y], z, w);
  }

  lemma BitStringFour(x: int, y: int, z: int, u: int, w: nat)
    requires w > 0
    ensures BitString([x, y, z, u], w) == Bits(x, w) + Bits(y, w) + Bits(z, w) + Bits(u, w)
  {
    assert [x, y, z, u] == [x, y, z] + [u];
    BitStringThree(x, y, z, w);
    BitStringSnoc([x, y, z], u, w);
  }

  lemma Regroup(x0: seq<bool>, y0: seq<bool>, x1: seq<bool>, y1: seq<bool>, x2: seq<bool>, y2: seq<bool>)
    ensures (x0 + y0) + (x1 + y1) + (x2 + y2) == x0 + (y0 + x1) + (y1 + x2) + y2
  {
  }
}

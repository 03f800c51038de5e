/** Packer: plain concatenation of buffers, and cutting a buffer by a list of sizes
    whose last entry may be open (-1, the rest). */
module Packer {
  import opened Prelude

  const REST: int := -1

  function Concat(parts: seq<bytes>): bytes {
    if parts == [] then [] else parts[0] + Concat(parts[1..])
  }

  method Pack(parts: seq<bytes>) returns (result: bytes)
    ensures result == Concat(parts)
  {
    result := [];
    for i := 0 to |parts|
      invariant Concat(parts) == result + Concat(parts[i..])
    {
      assert parts[i..][1..] == parts[i + 1..];
      result := result + parts[i];
    }
  }

  /** The compile-time check: only the last size may be open. */
  predicate OnlyLastOpen(sizes: seq<int>) {
    forall i :: 0 <= i < |sizes| - 1 ==> sizes[i] != REST
  }

  function Sum(sizes: seq<int>): int {
    if sizes == [] then 0 else Sum(sizes[..|sizes| - 1]) + sizes[|sizes| - 1]
  }

  /** The sizes that are not open. */
  function Fixed(sizes: seq<int>): seq<int> {
    if sizes != [] && sizes[|sizes| - 1] == REST then sizes[..|sizes| - 1] else sizes
  }

  /** No fixed size is negative, and together they do not exceed the buffer. */
  predicate Fits(sizes: seq<int>, n: nat) {
    (forall i :: 0 <= i < |Fixed(sizes)| ==> Fixed(sizes)[i] >= 0) && Sum(Fixed(sizes)) <= n
  }

  /** Nothing of the buffer is left over. */
  predicate Exhausts(sizes: seq<int>, n: nat) {
    Fits(sizes, n) && (Fixed(sizes) != sizes || Sum(sizes) == n)
  }

  /** What span::subspan demands of the pieces. */
  predicate InRange(sizes: seq<int>, n: nat) {
    forall i :: 0 <= i < |sizes| ==> FieldInRange(sizes, n, i)
  }

  predicate FieldInRange(sizes: seq<int>, n: nat, i: int)
    requires 0 <= i < |sizes|
  {
    var start := Sum(sizes[..i]);
    0 <= start <= n && (sizes[i] == REST || (0 <= sizes[i] && start + sizes[i] <= n))
  }

  lemma {:induction false} SumBounds(sizes: seq<int>, i: nat)
    requires i <= |sizes| && forall k :: 0 <= k < |sizes| ==> sizes[k] >= 0
    ensures 0 <= Sum(sizes[..i]) <= Sum(sizes)
  {
    if i == |sizes| {
      assert sizes[..i] == sizes;
      if i > 0 { SumBounds(sizes[..i - 1], i - 1); }
    } else {
      var rest := sizes[..|sizes| - 1];
      assert rest[..i] == sizes[..i];
      SumBounds(rest, i);
    }
  }

  lemma FittingIsInRange(sizes: seq<int>, n: nat)
    requires OnlyLastOpen(sizes) && Fits(sizes, n)
    ensures InRange(sizes, n)
  {
    var f := Fixed(sizes);
    forall i | 0 <= i < |sizes|
      ensures FieldInRange(sizes, n, i)
    {
      assert sizes[..i] == f[..i];
      SumBounds(f, i);
      if i < |f| {
        assert f[..i + 1][..i] == f[..i];
        SumBounds(f, i + 1);
      }
    }
  }

  lemma InRangeFits(sizes: seq<int>, n: nat)
    requires OnlyLastOpen(sizes) && InRange(sizes, n)
    ensures Fits(sizes, n)
  {
    var f := Fixed(sizes);
    forall i | 0 <= i < |f|
      ensures f[i] >= 0
    {
      assert FieldInRange(sizes, n, i);
    }
    if sizes != [] {
      assert FieldInRange(sizes, n, |sizes| - 1);
    }
  }

  /** The layout fits exactly when every subspan that is taken is in range. */
  lemma FitsIsInRange(sizes: seq<int>, n: nat)
    requires OnlyLastOpen(sizes)
    ensures Fits(sizes, n) <==> InRange(sizes, n)
  {
    var f := Fixed(sizes);
    if Fits(sizes, n) {
      FittingIsInRange(sizes, n);
    }
    if InRange(sizes, n) {
      InRangeFits(sizes, n);
    }
  }

  /** get_offset: the sum of the sizes before a field, none of which is the open one. */
  method GetOffset(sizes: seq<int>, target: nat) returns (offset: int)
    requires OnlyLastOpen(sizes) && target < |sizes|
    ensures offset == Sum(sizes[..target]) && REST !in sizes[..target]
  {
    offset := 0;
    for i := 0 to target
      invariant offset == Sum(sizes[..i])
    {
      assert sizes[..i + 1][..i] == sizes[..i];
      offset := offset + sizes[i];
    }
  }

  /** Piece i as the code takes it. */
  function Piece(buffer: bytes, sizes: seq<int>, i: nat): bytes
    requires i < |sizes| && FieldInRange(sizes, |buffer|, i)
  {
    var start := Sum(sizes[..i]);
    if sizes[i] == REST then buffer[start..] else buffer[start..start + sizes[i]]
  }

  /** unpack: one subspan per size. */
  method Unpack(buffer: bytes, sizes: seq<int>) returns (parts: seq<bytes>)
    requires OnlyLastOpen(sizes) && Fits(sizes, |buffer|)
    ensures Cuts(parts, buffer, sizes)
  {
    FitsIsInRange(sizes, |buffer|);
    parts := [];
    for i := 0 to |sizes|
      invariant |parts| == i
      invariant forall k :: 0 <= k < i ==> parts[k] == Piece(buffer, sizes, k)
    {
      assert FieldInRange(sizes, |buffer|, i);
      var start := GetOffset(sizes, i);
      var len := sizes[i];
      if len == REST {
        parts := parts + [buffer[start..]];
      } else {
        parts := parts + [buffer[start..start + len]];
      }
    }
    PiecesCut(parts, buffer, sizes);
  }

  /** parts are the fields of buffer: each has its size, an open one ends the buffer, and
      put together they are what the buffer starts with. */
  ghost predicate Cuts(parts: seq<bytes>, buffer: bytes, sizes: seq<int>) {
    && |parts| == |sizes|
    && (forall i :: 0 <= i < |sizes| ==> sizes[i] != REST ==> |parts[i]| == sizes[i])
    && Concat(parts) <= buffer
    && (Fixed(sizes) != sizes ==> Concat(parts) == buffer)
  }

  lemma {:induction false} ConcatSnoc(parts: seq<bytes>, x: bytes)
    ensures Concat(parts + [x]) == Concat(parts) + x
  {
    if parts == [] {
      assert [] + [x] == [x] && [x][1..] == [];
    } else {
      assert (parts + [x])[1..] == parts[1..] + [x];
      ConcatSnoc(parts[1..], x);
    }
  }

  lemma ConcatStep(parts: seq<bytes>, m: nat)
    requires 0 < m <= |parts|
    ensures Concat(parts[..m]) == Concat(parts[..m - 1]) + parts[m - 1]
  {
    assert parts[..m] == parts[..m - 1] + [parts[m - 1]];
    ConcatSnoc(parts[..m - 1], parts[m - 1]);
  }

  lemma SumStep(sizes: seq<int>, m: nat)
    requires 0 < m <= |sizes|
    ensures Sum(sizes[..m]) == Sum(sizes[..m - 1]) + sizes[m - 1]
  {
    assert sizes[..m][..m - 1] == sizes[..m - 1];
  }

  lemma Extend(front: bytes, x: bytes, buffer: bytes, start: int, end: int)
    requires 0 <= start <= end <= |buffer| && front == buffer[..start] && x == buffer[start..end]
    ensures front + x == buffer[..end]
  {
  }

  /** The first m pieces, none of them open, are the front of the buffer. */
  lemma {:induction false} FrontPieces(parts: seq<bytes>, buffer: bytes, sizes: seq<int>, m: nat)
    requires m <= |parts| == |sizes| && InRange(sizes, |buffer|)
    requires forall k :: 0 <= k < m ==> sizes[k] != REST && parts[k] == Piece(buffer, sizes, k)
    ensures 0 <= Sum(sizes[..m]) <= |buffer| && Concat(parts[..m]) == buffer[..Sum(sizes[..m])]
  {
    if m > 0 {
      var start := Sum(sizes[..m - 1]);
      FrontPieces(parts, buffer, sizes, m - 1);
      assert FieldInRange(sizes, |buffer|, m - 1);
      ConcatStep(parts, m);
      SumStep(sizes, m);
      Extend(Concat(parts[..m - 1]), parts[m - 1], buffer, start, start + sizes[m - 1]);
    }
  }

  lemma PiecesCut(parts: seq<bytes>, buffer: bytes, sizes: seq<int>)
    requires |parts| == |sizes| && OnlyLastOpen(sizes) && InRange(sizes, |buffer|)
    requires forall k :: 0 <= k < |sizes| ==> parts[k] == Piece(buffer, sizes, k)
    ensures Cuts(parts, buffer, sizes)
  {
    var m := |Fixed(sizes)|;
    FrontPieces(parts, buffer, sizes, m);
    forall i | 0 <= i < |sizes| && sizes[i] != REST
      ensures |parts[i]| == sizes[i]
    {
      assert FieldInRange(sizes, |buffer|, i);
    }
    assert parts[..|sizes|] == parts;
    if m < |sizes| {
      assert FieldInRange(sizes, |buffer|, m);
      ConcatStep(parts, m + 1);
      Extend(Concat(parts[..m]), parts[m], buffer, Sum(sizes[..m]), |buffer|);
      assert buffer[..|buffer|] == buffer;
    }
  }

  /** A buffer has only one set of fields of given sizes. */
  lemma {:induction false} CutIsUnique(p: seq<bytes>, q: seq<bytes>, buffer: bytes, sizes: seq<int>)
    requires OnlyLastOpen(sizes) && Cuts(p, buffer, sizes) && Cuts(q, buffer, sizes)
    ensures p == q
  {
    if sizes != [] {
      var rest := sizes[1..];
      if rest == [] {
        OneField(p, buffer, sizes);
        OneField(q, buffer, sizes);
        assert p[0] == buffer[..|p[0]|] && q[0] == buffer[..|q[0]|];
        assert |p[0]| == |q[0]|;
        assert p == [p[0]] && q == [q[0]];
      } else {
        var n := sizes[0];
        assert p[0] == buffer[..n] && q[0] == buffer[..n];
        TailCuts(p, buffer, sizes);
        TailCuts(q, buffer, sizes);
        CutIsUnique(p[1..], q[1..], buffer[n..], rest);
        assert p == [p[0]] + p[1..] && q == [q[0]] + q[1..];
      }
    }
  }

  lemma OneField(p: seq<bytes>, buffer: bytes, sizes: seq<int>)
    requires |sizes| == 1 && Cuts(p, buffer, sizes)
    ensures |p| == 1 && p[0] <= buffer && (sizes[0] == REST ==> p[0] == buffer)
  {
    assert p[1..] == [] && Concat(p) == p[0] + Concat(p[1..]);
    assert p[0] + [] == p[0];
    assert sizes[0] == REST ==> |Fixed(sizes)| == 0;
  }

  lemma TailCuts(p: seq<bytes>, buffer: bytes, sizes: seq<int>)
    requires |sizes| >= 2 && OnlyLastOpen(sizes) && Cuts(p, buffer, sizes)
    ensures 0 <= sizes[0] <= |buffer| && Cuts(p[1..], buffer[sizes[0]..], sizes[1..])
  {
  }

  /** The sizes of a list of buffers, the last one left open if so wished. */
  function SizesOf(parts: seq<bytes>, open: bool): seq<int> {
    seq(|parts|, i requires 0 <= i < |parts| => if open && i == |parts| - 1 then REST else |parts[i]|)
  }

  lemma {:induction false} SumOfSizes(parts: seq<bytes>)
    ensures Sum(SizesOf(parts, false)) == |Concat(parts)|
  {
    if parts != [] {
      var n := |parts| - 1;
      assert SizesOf(parts, false)[..n] == SizesOf(parts[..n], false);
      SumOfSizes(parts[..n]);
      ConcatStep(parts, n + 1);
      assert parts[..n + 1] == parts;
    }
  }

  /** Packing, then unpacking with the matching sizes: the layout is accepted, and the
      only fields unpack can return are the buffers that were packed. */
  lemma UnpackAfterPack(parts: seq<bytes>, open: bool, result: seq<bytes>)
    ensures var sizes := SizesOf(parts, open);
      && OnlyLastOpen(sizes) && Fits(sizes, |Concat(parts)|)
      && (forall i :: 0 <= i < |sizes| ==> sizes[i] == if open && i == |parts| - 1 then -1 else |parts[i]|)
      && (Cuts(result, Concat(parts), sizes) <==> result == parts)
  {
    var sizes := SizesOf(parts, open);
    SizesFit(parts, open);
    if Cuts(result, Concat(parts), sizes) {
      CutIsUnique(result, parts, Concat(parts), sizes);
    }
  }

  lemma SizesFit(parts: seq<bytes>, open: bool)
    ensures var sizes := SizesOf(parts, open);
      OnlyLastOpen(sizes) && Fits(sizes, |Concat(parts)|) && Cuts(parts, Concat(parts), sizes)
  {
    var sizes := SizesOf(parts, open);
    SumOfSizes(parts);
    if open && parts != [] {
      var n := |parts| - 1;
      assert Fixed(sizes) == SizesOf(parts[..n], false);
      SumOfSizes(parts[..n]);
      ConcatStep(parts, n + 1);
      assert parts[..n + 1] == parts;
    } else {
      assert sizes == SizesOf(parts, false) && Fixed(sizes) == sizes;
    }
  }

  /** Unpacking, then packing the fields again gives the buffer back exactly when the
      layout leaves nothing over. */
  lemma PackAfterUnpack(buffer: bytes, sizes: seq<int>, parts: seq<bytes>)
    requires OnlyLastOpen(sizes) && Fits(sizes, |buffer|) && Cuts(parts, buffer, sizes)
    ensures Concat(parts) == buffer <==> Exhausts(sizes, |buffer|)
  {
    if Fixed(sizes) == sizes {
      assert SizesOf(parts, false) == sizes by {
        forall i | 0 <= i < |sizes|
          ensures sizes[i] == |parts[i]|
        {
          assert sizes[i] == Fixed(sizes)[i];
        }
      }
      SumOfSizes(parts);
    }
  }
}

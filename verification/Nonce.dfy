/** The Nonce type: a byte buffer and the used flag that guards against reuse. */
module Nonce {
  import opened Prelude
  import E = BigEndian

  datatype Generation = Lazy | Eager

  /** What a nonce object holds. */
  datatype State = State(content: bytes, used: bool)

  // ------------------------------------------------------ the counter

  /** The number a buffer stands for as a counter: its first byte is the lowest. */
  function Counter(b: bytes): nat {
    if b == [] then 0 else b[0] + 256 * Counter(b[1..])
  }

  /** One pass of adding a carry. */
  function AddCarry(b: bytes, c: nat): (r: bytes)
    requires c <= 1
    ensures |r| == |b|
  {
    if b == [] then [] else [(b[0] + c) % 256] + AddCarry(b[1..], (b[0] + c) / 256)
  }

  function Successor(b: bytes): (r: bytes)
    ensures |r| == |b|
  {
    AddCarry(b, 1)
  }

  lemma {:induction false} NoCarry(b: bytes)
    ensures AddCarry(b, 0) == b
  {
    if b != [] {
      NoCarry(b[1..]);
      assert b == [b[0]] + b[1..];
    }
  }

  lemma {:induction false} CounterBound(b: bytes)
    ensures Counter(b) < E.Pow256(|b|)
  {
    if b != [] { CounterBound(b[1..]); }
  }

  /** Carrying adds one, and wraps from all ones to zero. */
  lemma {:induction false} SuccessorCounts(b: bytes)
    ensures Counter(Successor(b)) == if Counter(b) + 1 == E.Pow256(|b|) then 0 else Counter(b) + 1
  {
    if b != [] {
      CounterBound(b[1..]);
      NoCarry(b[1..]);
      SuccessorCounts(b[1..]);
      assert Successor(b)[1..] == if b[0] < 255 then b[1..] else Successor(b[1..]);
    }
  }

  lemma {:induction false} CounterInjective(a: bytes, b: bytes)
    requires |a| == |b| && Counter(a) == Counter(b)
    ensures a == b
  {
    if a != [] {
      CounterInjective(a[1..], b[1..]);
      assert a == [a[0]] + a[1..] && b == [b[0]] + b[1..];
    }
  }

  lemma {:induction false} ValueFromTheTop(x: byte, r: bytes)
    ensures E.Value([x] + r) == x * E.Pow256(|r|) + E.Value(r)
  {
    var n := |r|;
    if n == 0 {
      assert [x] + r == [x] && [x][..0] == [];
    } else {
      var q := r[..n - 1];
      assert ([x] + r)[..n] == [x] + q;
      ValueFromTheTop(x, q);
      assert x * E.Pow256(n) == 256 * (x * E.Pow256(n - 1));
    }
  }

  ghost predicate AllOnes(b: bytes) {
    forall i :: 0 <= i < |b| ==> b[i] == 255
  }

  lemma {:induction false} LargestIsAllOnes(b: bytes)
    ensures E.Value(b) < E.Pow256(|b|)
    ensures E.Value(b) == E.Pow256(|b|) - 1 <==> AllOnes(b)
  {
    E.DigitsOfValue(b);
    if b != [] {
      var q := b[..|b| - 1];
      LargestIsAllOnes(q);
      assert AllOnes(b) <==> AllOnes(q) && b[|b| - 1] == 255;
    }
  }

  lemma {:induction false} AllOnesWraps(b: bytes)
    requires AllOnes(b)
    ensures forall i :: 0 <= i < |b| ==> Successor(b)[i] == 0
  {
    if b != [] {
      AllOnesWraps(b[1..]);
      assert Successor(b) == [0] + Successor(b[1..]);
    }
  }

  /** next follows x modulo size. */
  predicate IsNext(x: int, next: int, size: int)
    requires size > 0
  {
    next == (x + 1) % size
  }

  /** Read as the big-endian number it is documented to be, the buffer counts up by one
      exactly when it has at most one byte, or is about to wrap around. */
  lemma BigEndianCountsExactly(b: bytes)
    ensures IsNext(E.Value(b), E.Value(Successor(b)), E.Pow256(|b|)) <==> |b| <= 1 || AllOnes(b)
  {
    LargestIsAllOnes(b);
    CountsUp(b);
    NextModulo(E.Value(b), E.Value(Successor(b)), E.Pow256(|b|), AllOnes(b), |b| <= 1);
  }

  lemma CountsUp(b: bytes)
    ensures AllOnes(b) ==> E.Value(Successor(b)) == 0
    ensures !AllOnes(b) ==> (E.Value(Successor(b)) == E.Value(b) + 1 <==> |b| <= 1)
  {
    if AllOnes(b) {
      AllOnesWraps(b);
      ZerosAreZero(Successor(b));
    } else {
      HeadAndTail(b);
      NotTheLast(b[0], b[1..]);
    }
  }

  lemma HeadAndTail(b: bytes)
    requires b != []
    ensures b == [b[0]] + b[1..] && (b[0] == 255 && AllOnes(b[1..]) ==> AllOnes(b))
  {
  }

  lemma NotTheLast(x: byte, r: bytes)
    requires x < 255 || !AllOnes(r)
    ensures E.Value(Successor([x] + r)) == E.Value([x] + r) + 1 <==> r == []
  {
    if r == [] {
      assert [x] + r == [x];
      OneByte(x);
    } else if x < 255 {
      FirstByteMoves(x, r);
    } else {
      FirstByteWraps(r);
    }
  }

  lemma NextModulo(x: int, next: int, size: int, last: bool, exact: bool)
    requires 0 <= x < size && (last <==> x == size - 1)
    requires if last then next == 0 else (next == x + 1 <==> exact)
    ensures IsNext(x, next, size) <==> exact || last
  {
  }

  lemma OneByte(x: byte)
    requires x < 255
    ensures E.Value(Successor([x])) == E.Value([x]) + 1
  {
    NoCarry([]);
    assert Successor([x]) == [x + 1];
    assert [x][..0] == [] && [x + 1][..0] == [];
  }

  lemma {:induction false} ZerosAreZero(b: bytes)
    requires forall i :: 0 <= i < |b| ==> b[i] == 0
    ensures E.Value(b) == 0
  {
    if b != [] { ZerosAreZero(b[..|b| - 1]); }
  }

  /** Stepping the first of several bytes moves the big-endian value by more than one. */
  lemma FirstByteMoves(x: byte, r: bytes)
    requires r != [] && x < 255
    ensures E.Value(Successor([x] + r)) != E.Value([x] + r) + 1
  {
    var size := E.Pow256(|r|);
    assert size == 256 * E.Pow256(|r| - 1);
    assert ([x] + r)[1..] == r;
    NoCarry(r);
    assert Successor([x] + r) == [x + 1] + r;
    ValueFromTheTop(x, r);
    ValueFromTheTop(x + 1, r);
    OneMore(x, size);
  }

  lemma OneMore(x: int, size: int)
    ensures (x + 1) * size == x * size + size
  {
  }

  /** Wrapping it moves the value down. */
  lemma FirstByteWraps(r: bytes)
    requires r != []
    ensures E.Value(Successor([255] + r)) < E.Value([255] + r)
  {
    assert ([255] + r)[1..] == r;
    assert Successor([255] + r) == [0] + Successor(r);
    ValueFromTheTop(255, r);
    ValueFromTheTop(0, Successor(r));
    LargestIsAllOnes(Successor(r));
  }

  /** Two zero bytes go to 1 as a counter, and to 256 read big-endian. */
  lemma BigEndianExample()
    ensures Successor([0, 0]) == [1, 0]
    ensures E.Value([0, 0]) == 0 && E.Value(Successor([0, 0])) == 256
  {
    assert [0, 0][1..] == [0] && [0][1..] == [];
    assert [0, 0][..1] == [0] && [1, 0][..1] == [1] && [0][..0] == [] && [1][..0] == [];
  }

  /** sodium_increment: one pass over the buffer with a carry. */
  method SodiumIncrement(n: array<byte>)
    modifies n
    ensures n[..] == Successor(old(n[..]))
  {
    ghost var was := n[..];
    ghost var done: bytes := [];
    var c: nat := 1;
    var i := 0;
    while i < n.Length
      invariant 0 <= i == |done| <= n.Length && c <= 1
      invariant forall k :: 0 <= k < i ==> n[k] == done[k]
      invariant forall k :: i <= k < n.Length ==> n[k] == was[k]
      invariant Successor(was) == done + AddCarry(was[i..], c)
    {
      CarryStep(was, done, i, c);
      c := c + n[i];
      n[i] := c % 256;
      c := c / 256;
      done := done + [n[i]];
      i := i + 1;
    }
    assert n[..] == done;
  }

  lemma CarryStep(b: bytes, done: bytes, i: nat, c: nat)
    requires i < |b| && c <= 1
    ensures done + AddCarry(b[i..], c) == done + [(b[i] + c) % 256] + AddCarry(b[i + 1..], (b[i] + c) / 256)
  {
  }

  // -------------------------------------------------------- the object

  class Nonce {
    const mode: Generation
    var vec: array<byte>
    var used: bool

    ghost function View(): State
      reads this, vec
    {
      State(vec[..], used)
    }

    /** Nonce(): empty, to be filled by the function that uses it. */
    constructor Lazy()
      ensures mode == Generation.Lazy && View() == State([], false) && fresh(vec)
    {
      mode := Generation.Lazy;
      vec := new byte[0];
      used := false;
    }

    /** Nonce(n): n bytes, which are not randomised. */
    constructor Eager(n: nat)
      ensures mode == Generation.Eager && View() == State(Repeat(0, n), false) && fresh(vec)
    {
      mode := Generation.Eager;
      vec := new byte[n](_ => 0);
      used := false;
    }

    /** Nonce(span): a copy, counted as already used. */
    constructor FromSpan(view: bytes)
      ensures mode == Generation.Eager && View() == State(view, true) && fresh(vec)
    {
      mode := Generation.Eager;
      vec := new byte[|view|](i requires 0 <= i < |view| => view[i]);
      used := true;
    }

    /** random_generate(n): a buffer of n drawn bytes, unused. */
    method RandomGenerate(draw: bytes)
      modifies this
      ensures View() == State(draw, false) && fresh(vec)
    {
      used := false;
      vec := new byte[|draw|](i requires 0 <= i < |draw| => draw[i]);
    }

    /** random_generate(): overwrites the buffer in place. */
    method Randomize(draw: bytes)
      requires mode == Generation.Eager && |draw| == vec.Length
      modifies this`used, vec
      ensures View() == State(draw, false)
    {
      used := false;
      forall k | 0 <= k < vec.Length {
        vec[k] := draw[k];
      }
    }

    /** increment(): the next counter value, unused; nothing on an empty buffer. */
    method Increment()
      requires mode == Generation.Eager
      modifies this`used, vec
      ensures View() == Incremented(old(View()))
    {
      if vec.Length != 0 {
        used := false;
        SodiumIncrement(vec);
      }
    }

    method Used() returns (r: bool)
      ensures r == View().used
    {
      r := used;
    }
  }

  function Incremented(s: State): State {
    if s.content == [] then s else State(Successor(s.content), false)
  }

  /** increment leaves a nonce of the same size that is unused and one further on, which
      is another value; except an empty one, which it does not touch. */
  lemma IncrementAdvances(s: State)
    ensures s.content == [] ==> Incremented(s) == s
    ensures s.content != [] ==>
      var t := Incremented(s);
      && !t.used && |t.content| == |s.content| && t.content != s.content
      && IsNext(Counter(s.content), Counter(t.content), E.Pow256(|s.content|))
  {
    if s.content != [] {
      SuccessorCounts(s.content);
      CounterBound(s.content);
      StepModulo(Counter(s.content), Counter(Successor(s.content)), E.Pow256(|s.content|));
    }
  }

  lemma StepModulo(x: int, next: int, size: int)
    requires 0 <= x < size && size > 1 && next == if x + 1 == size then 0 else x + 1
    ensures IsNext(x, next, size) && next != x
  {
  }
}

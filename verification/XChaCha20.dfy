/** XChaCha20Poly1305 over caller-owned nonce objects, and what becomes of a nonce
    over a whole run. */
module XChaCha20 {
  import opened Prelude
  import N = Nonce
  import E = BigEndian

  const KEYBYTES: nat := 32
  const NPUBBYTES: nat := 24
  const ABYTES: nat := 16

  /** A key object, whose size the source does not check: the primitive reads its first 32
      bytes, so it has to have that many. */
  type Key = k: bytes | |k| >= 32 witness Repeat(0, 32)

  /** The AEAD primitive: encrypt(key, nonce, aad, message), decrypt likewise; None is a
      nonzero return. */
  datatype Functions = Functions(
    encrypt: (bytes, bytes, bytes, bytes) -> Option<bytes>,
    decrypt: (bytes, bytes, bytes, bytes) -> Option<bytes>)

  ghost predicate Lawful(f: Functions) {
    && (forall k: bytes, n: bytes, a: bytes, m: bytes ::
          |k| == KEYBYTES && |n| == NPUBBYTES && f.encrypt(k, n, a, m).Some? ==>
          |f.encrypt(k, n, a, m).value| == |m| + ABYTES && f.decrypt(k, n, a, f.encrypt(k, n, a, m).value) == Some(m))
  }

  type Aead = f: Functions | Lawful(f) witness TAGGED

  /** A lawful pair: the tag is the first bytes of the nonce. */
  const TAGGED: Functions := Functions((k, n, a, m) => Some(Tag(n) + m), (k, n, a, c) => Untag(n, c))

  function Tag(n: bytes): (t: bytes)
    ensures |t| == ABYTES
  {
    if |n| >= ABYTES then n[..ABYTES] else Repeat(0, ABYTES)
  }

  function Untag(n: bytes, c: bytes): (m: Option<bytes>)
    ensures forall x: bytes :: c == Tag(n) + x ==> m == Some(x)
  {
    if |c| >= ABYTES && c[..ABYTES] == Tag(n) then Some(c[ABYTES..]) else None
  }

  /** The bytes encrypt works with: a lazy nonce that is still empty is filled first. */
  function Filled(mode: N.Generation, content: bytes, draw: bytes): bytes {
    if mode == N.Lazy && content == [] then draw else content
  }

  /** Result and new nonce state of an encryption attempt. */
  function Attempt(aead: Aead, mode: N.Generation, st: N.State, key: Key, aad: bytes, p: bytes, draw: bytes)
    : (Result<bytes>, N.State)
  {
    var content := Filled(mode, st.content, draw);
    if st.used then (Err(LogicError(NonceReuse)), st)
    else if |content| != NPUBBYTES then (Err(LogicError(NonceSize(|content|))), N.State(content, false))
    else match aead.encrypt(key[..KEYBYTES], content, aad, p)
      case None => (Err(RuntimeError), N.State(content, false))
      case Some(c) => (Ok(c), N.State(content, true))
  }

  method Encrypt(aead: Aead, plaintext: bytes, key: Key, nonce: N.Nonce, aad: bytes, draw: bytes)
    returns (r: Result<bytes>)
    requires |draw| == NPUBBYTES
    modifies nonce
    ensures (r, nonce.View()) == Attempt(aead, nonce.mode, old(nonce.View()), key, aad, plaintext, draw)
    ensures nonce.vec == old(nonce.vec) || (nonce.mode == N.Lazy && fresh(nonce.vec))
  {
    if nonce.used {
      return Err(LogicError(NonceReuse));
    }
    if nonce.mode == N.Lazy {
      if nonce.vec.Length == 0 {
        assert nonce.vec[..] == [];
        nonce.RandomGenerate(draw);
      }
    }
    if nonce.vec.Length != NPUBBYTES {
      return Err(LogicError(NonceSize(nonce.vec.Length)));
    }
    match aead.encrypt(key[..KEYBYTES], nonce.vec[..], aad, plaintext)
    case None =>
      r := Err(RuntimeError);
    case Some(c) =>
      nonce.used := true;
      r := Ok(c);
  }

  /** decrypt reads the nonce, whose size it does not check, and leaves it alone. */
  method Decrypt(aead: Aead, ciphertext: bytes, key: Key, nonce: N.Nonce, aad: bytes) returns (r: Result<bytes>)
    requires |ciphertext| >= ABYTES ==> nonce.vec.Length >= NPUBBYTES
    ensures r == Opened(aead, ciphertext, key, nonce.vec[..], aad)
  {
    if |ciphertext| < ABYTES {
      return Err(RuntimeError);
    }
    match aead.decrypt(key[..KEYBYTES], nonce.vec[..NPUBBYTES], aad, ciphertext)
    case None => r := Err(RuntimeError);
    case Some(m) => r := Ok(m);
  }

  function Opened(aead: Aead, ciphertext: bytes, key: Key, content: bytes, aad: bytes): Result<bytes>
    requires |ciphertext| >= ABYTES ==> |content| >= NPUBBYTES
  {
    if |ciphertext| < ABYTES then Err(RuntimeError)
    else match aead.decrypt(key[..KEYBYTES], content[..NPUBBYTES], aad, ciphertext)
      case None => Err(RuntimeError)
      case Some(m) => Ok(m)
  }

  /** Every outcome of an attempt, by the nonce it leaves. The content only changes if a lazy
      nonce was empty, and then it is the draw. The attempt succeeds exactly if the nonce
      was unused, is of 24 bytes and the primitive does, and the result is then the
      primitive's under that very nonce; otherwise the flag stays as it was. */
  lemma AttemptDecides(aead: Aead, mode: N.Generation, st: N.State, key: Key, aad: bytes, p: bytes, draw: bytes)
    ensures var (r, st') := Attempt(aead, mode, st, key, aad, p, draw);
      && (if mode == N.Lazy && st == N.State([], false) then st'.content == draw else st'.content == st.content)
      && (r.Ok? <==> !st.used && |st'.content| == 24 && aead.encrypt(key[..32], st'.content, aad, p).Some?)
      && (r.Ok? ==> st'.used && Some(r.value) == aead.encrypt(key[..32], st'.content, aad, p))
      && (r.Err? ==> st'.used == st.used)
      && (st.used ==> r == Err(LogicError(NonceReuse)))
      && (!st.used && |st'.content| != 24 ==> r == Err(LogicError(NonceSize(|st'.content|))))
      && (!st.used && |st'.content| == 24 && r.Err? ==> r == Err(RuntimeError))
  {
  }

  /** Decryption gives a plaintext exactly if the ciphertext has a tag and the primitive
      authenticates it to that plaintext; anything else is a runtime error. */
  lemma DecryptAuthenticates(aead: Aead, c: bytes, key: Key, content: bytes, aad: bytes, m: bytes)
    requires |content| >= 24
    ensures Opened(aead, c, key, content, aad) == Ok(m)
      <==> |c| >= 16 && aead.decrypt(key[..32], content[..24], aad, c) == Some(m)
    ensures Opened(aead, c, key, content, aad).Err? ==> Opened(aead, c, key, content, aad).error == RuntimeError
  {
  }

  /** So what was encrypted under one key, nonce and associated data is refused under others
      exactly if the primitive rejects it there. */
  lemma ForeignCiphertext(aead: Aead, mode: N.Generation, st: N.State, key: Key, aad: bytes, p: bytes, draw: bytes,
                          key': Key, content': bytes, aad': bytes)
    requires Attempt(aead, mode, st, key, aad, p, draw).0.Ok? && |content'| >= 24
    ensures var c := Attempt(aead, mode, st, key, aad, p, draw).0.value;
      (Opened(aead, c, key', content', aad') == Err(RuntimeError)
       <==> aead.decrypt(key'[..32], content'[..24], aad', c) == None)
  {
    AttemptDecides(aead, mode, st, key, aad, p, draw);
    var (r, st') := Attempt(aead, mode, st, key, aad, p, draw);
    assert |key[..KEYBYTES]| == KEYBYTES && |r.value| == |p| + ABYTES;
  }

  /** After a successful attempt the nonce object decrypts what it encrypted, and is
      good for nothing else until it is refreshed. */
  lemma AttemptRoundTrip(aead: Aead, mode: N.Generation, st: N.State, key: Key, aad: bytes, p: bytes, draw: bytes,
                         key': Key, aad': bytes, p': bytes, draw': bytes)
    requires Attempt(aead, mode, st, key, aad, p, draw).0.Ok?
    ensures var (r, st') := Attempt(aead, mode, st, key, aad, p, draw);
      && |r.value| == |p| + ABYTES && |st'.content| == NPUBBYTES
      && Opened(aead, r.value, key, st'.content, aad) == Ok(p)
      && Attempt(aead, mode, st', key', aad', p', draw') == (Err(LogicError(NonceReuse)), st')
  {
    var content := Filled(mode, st.content, draw);
    assert content[..NPUBBYTES] == content;
  }

  // ------------------------------------------------------------ whole runs

  datatype Op = IncrementOp | EncryptOp(key: Key, aad: bytes, p: bytes)

  /** The state one operation on an eager nonce leaves. */
  function Next(aead: Aead, st: N.State, op: Op): N.State {
    match op
    case IncrementOp => N.Incremented(st)
    case EncryptOp(key, aad, p) => Attempt(aead, N.Eager, st, key, aad, p, []).1
  }

  /** The nonce value it consumes, if it is an encryption that succeeds. */
  function Consumed(aead: Aead, st: N.State, op: Op): seq<bytes> {
    match op
    case IncrementOp => []
    case EncryptOp(key, aad, p) => if Attempt(aead, N.Eager, st, key, aad, p, []).0.Ok? then [st.content] else []
  }

  /** The nonce values the successful encryptions of a run used, in order. */
  function UsedBy(aead: Aead, st: N.State, ops: seq<Op>): seq<bytes>
    decreases |ops|
  {
    if ops == [] then [] else Consumed(aead, st, ops[0]) + UsedBy(aead, Next(aead, st, ops[0]), ops[1..])
  }

  function Increments(ops: seq<Op>): nat {
    if ops == [] then 0 else (if ops[0].IncrementOp? then 1 else 0) + Increments(ops[1..])
  }

  /** The value k increments after v, counting modulo size. */
  function Ahead(v: nat, k: nat, size: nat): nat {
    if v + k < size then v + k else v + k - size
  }

  /** How many increments of the run precede each successful encryption. */
  function Marks(aead: Aead, st: N.State, ops: seq<Op>): (at: seq<nat>)
    ensures |at| == |UsedBy(aead, st, ops)|
    decreases |ops|
  {
    if ops == [] then []
    else
      var at := Marks(aead, Next(aead, st, ops[0]), ops[1..]);
      if ops[0].IncrementOp? then seq(|at|, i requires 0 <= i < |at| => at[i] + 1)
      else if Consumed(aead, st, ops[0]) == [] then at
      else [0] + at
  }

  /** From a used nonce nothing is encrypted before the first increment, two successful
      encryptions have an increment in between, and the value each uses is the counter
      that many increments on. */
  ghost predicate Spread(used: seq<bytes>, at: seq<nat>, st: N.State, incs: nat, size: nat) {
    && |used| == |at|
    && (forall i :: 0 <= i < |at| ==> (if st.used then 1 else 0) <= at[i] <= incs)
    && (forall i, j :: 0 <= i < j < |at| ==> at[i] < at[j])
    && (forall i :: 0 <= i < |at| ==> N.Counter(used[i]) == Ahead(N.Counter(st.content), at[i], size))
  }

  lemma {:induction false} RunSpreads(aead: Aead, st: N.State, ops: seq<Op>, size: nat)
    requires Increments(ops) < size == E.Pow256(|st.content|)
    ensures Spread(UsedBy(aead, st, ops), Marks(aead, st, ops), st, Increments(ops), size)
    decreases |ops|
  {
    if ops != [] {
      var st', rest := Next(aead, st, ops[0]), ops[1..];
      RunSpreads(aead, st', rest, size);
      FirstOp(aead, st, ops);
      var used, at := UsedBy(aead, st', rest), Marks(aead, st', rest);
      if ops[0].IncrementOp? {
        SpreadAfterIncrement(used, at, st, Increments(rest), size);
      } else if Consumed(aead, st, ops[0]) != [] {
        SpreadAfterEncrypt(used, at, st, Increments(rest), size);
      }
    }
  }

  /** What the first operation of a run contributes. */
  lemma FirstOp(aead: Aead, st: N.State, ops: seq<Op>)
    requires ops != []
    ensures var st', rest := Next(aead, st, ops[0]), ops[1..];
      var used, at := UsedBy(aead, st', rest), Marks(aead, st', rest);
      if ops[0].IncrementOp? then
        && st' == N.Incremented(st) && Increments(ops) == Increments(rest) + 1
        && UsedBy(aead, st, ops) == used
        && Marks(aead, st, ops) == seq(|at|, i requires 0 <= i < |at| => at[i] + 1)
      else if Consumed(aead, st, ops[0]) == [] then
        && st' == st && Increments(ops) == Increments(rest)
        && UsedBy(aead, st, ops) == used && Marks(aead, st, ops) == at
      else
        && !st.used && st' == N.State(st.content, true) && Increments(ops) == Increments(rest)
        && UsedBy(aead, st, ops) == [st.content] + used && Marks(aead, st, ops) == [0] + at
  {
  }

  lemma SpreadAfterIncrement(used: seq<bytes>, at: seq<nat>, st: N.State, incs: nat, size: nat)
    requires incs + 1 < size == E.Pow256(|st.content|)
    requires Spread(used, at, N.Incremented(st), incs, size)
    ensures Spread(used, seq(|at|, i requires 0 <= i < |at| => at[i] + 1), st, incs + 1, size)
  {
    N.CounterBound(st.content);
    N.SuccessorCounts(st.content);
  }

  lemma SpreadAfterEncrypt(used: seq<bytes>, at: seq<nat>, st: N.State, incs: nat, size: nat)
    requires !st.used && size == E.Pow256(|st.content|)
    requires Spread(used, at, N.State(st.content, true), incs, size)
    ensures Spread([st.content] + used, [0] + at, st, incs, size)
  {
    N.CounterBound(st.content);
  }

  /** In every run of increments and encryption attempts with fewer than 2^192
      increments, no two successful encryptions use the same nonce, wherever the counter
      starts and whatever is attempted in between. */
  lemma NoncesNeverRepeat(aead: Aead, st: N.State, ops: seq<Op>)
    requires |st.content| == NPUBBYTES && Increments(ops) < E.Pow256(NPUBBYTES)
    ensures Distinct(UsedBy(aead, st, ops))
  {
    var size := E.Pow256(|st.content|);
    N.CounterBound(st.content);
    RunSpreads(aead, st, ops, size);
    SpreadIsDistinct(UsedBy(aead, st, ops), Marks(aead, st, ops), st, Increments(ops), size);
  }

  ghost predicate Distinct(used: seq<bytes>) {
    forall i, j :: 0 <= i < j < |used| ==> used[i] != used[j]
  }

  lemma SpreadIsDistinct(used: seq<bytes>, at: seq<nat>, st: N.State, incs: nat, size: nat)
    requires incs < size && N.Counter(st.content) < size
    requires Spread(used, at, st, incs, size)
    ensures Distinct(used)
  {
  }

  /** The state n increments on. */
  function Advanced(st: N.State, n: nat): N.State
    decreases n
  {
    if n == 0 then st else Advanced(N.Incremented(st), n - 1)
  }

  lemma {:induction false} AdvancedCounts(st: N.State, n: nat, size: nat)
    requires n <= size == E.Pow256(|st.content|)
    ensures |Advanced(st, n).content| == |st.content| && (st.content != [] && n > 0 ==> !Advanced(st, n).used)
    ensures N.Counter(Advanced(st, n).content) == Ahead(N.Counter(st.content), n, size)
    decreases n
  {
    N.CounterBound(st.content);
    if n > 0 {
      N.SuccessorCounts(st.content);
      AdvancedCounts(N.Incremented(st), n - 1, size);
    }
  }

  lemma {:induction false} IncrementsAdvance(aead: Aead, st: N.State, n: nat, ops: seq<Op>)
    ensures UsedBy(aead, st, Repeat(IncrementOp, n) + ops) == UsedBy(aead, Advanced(st, n), ops)
    ensures Increments(Repeat(IncrementOp, n) + ops) == n + Increments(ops)
    decreases n
  {
    if n == 0 {
      assert Repeat(IncrementOp, 0) + ops == ops;
    } else {
      var all := Repeat(IncrementOp, n) + ops;
      assert all[1..] == Repeat(IncrementOp, n - 1) + ops;
      IncrementsAdvance(aead, N.Incremented(st), n - 1, ops);
    }
  }

  /** The bound is sharp: with 2^192 increments in between, two encryptions under the
      same nonce both succeed. */
  lemma NoncesRepeatAtTheBound(aead: Aead, content: bytes, key: Key, aad: bytes, p: bytes)
    requires |content| == NPUBBYTES && aead.encrypt(key[..KEYBYTES], content, aad, p).Some?
    ensures exists ops ::
      Increments(ops) == E.Pow256(NPUBBYTES) && UsedBy(aead, N.State(content, false), ops) == [content, content]
  {
    var ops := FullCycle(aead, content, EncryptOp(key, aad, p), E.Pow256(|content|));
  }

  lemma FullCycle(aead: Aead, content: bytes, enc: Op, size: nat) returns (ops: seq<Op>)
    requires content != [] && size == E.Pow256(|content|) && enc.EncryptOp?
    requires Consumed(aead, N.State(content, false), enc) == [content]
    ensures Increments(ops) == size && UsedBy(aead, N.State(content, false), ops) == [content, content]
  {
    var spent := N.State(content, true);
    var around := Repeat(IncrementOp, size) + [enc];
    ops := [enc] + around;
    BackToStart(content, size);
    IncrementsAdvance(aead, spent, size, [enc]);
    LastOp(aead, N.State(content, false), enc);
    assert ops[1..] == around;
    FirstOp(aead, N.State(content, false), ops);
  }

  lemma BackToStart(content: bytes, size: nat)
    requires content != [] && size == E.Pow256(|content|)
    ensures Advanced(N.State(content, true), size) == N.State(content, false)
  {
    var back := Advanced(N.State(content, true), size);
    N.CounterBound(content);
    AdvancedCounts(N.State(content, true), size, size);
    N.CounterInjective(back.content, content);
  }

  lemma LastOp(aead: Aead, st: N.State, op: Op)
    ensures UsedBy(aead, st, [op]) == Consumed(aead, st, op)
    ensures Increments([op]) == if op.IncrementOp? then 1 else 0
  {
  }

  // ------------------------------------------------------ the used flag

  /** The state a run ends in. */
  function Final(aead: Aead, st: N.State, ops: seq<Op>): N.State
    decreases |ops|
  {
    if ops == [] then st else Final(aead, Next(aead, st, ops[0]), ops[1..])
  }

  /** At the end of a run the counter stands as many steps on as there were increments,
      and the flag is set if the last success had all of them before it. */
  lemma {:induction false} FinalState(aead: Aead, st: N.State, ops: seq<Op>, size: nat)
    requires st.content != [] && Increments(ops) < size == E.Pow256(|st.content|)
    ensures var end, at := Final(aead, st, ops), Marks(aead, st, ops);
      && |end.content| == |st.content|
      && N.Counter(end.content) == Ahead(N.Counter(st.content), Increments(ops), size)
      && (end.used <==> if at == [] then st.used && Increments(ops) == 0 else at[|at| - 1] == Increments(ops))
    decreases |ops|
  {
    N.CounterBound(st.content);
    if ops != [] {
      var st' := Next(aead, st, ops[0]);
      FirstOp(aead, st, ops);
      N.SuccessorCounts(st.content);
      FinalState(aead, st', ops[1..], size);
    }
  }

  /** used() tells whether the value the nonce stands at has been consumed: at the end of
      any run from an unused nonce the flag is set exactly if some successful encryption
      of the run used the nonce's present content. */
  lemma UsedMeansConsumed(aead: Aead, st: N.State, ops: seq<Op>)
    requires |st.content| == NPUBBYTES && !st.used && Increments(ops) < E.Pow256(NPUBBYTES)
    ensures Final(aead, st, ops).used <==> Final(aead, st, ops).content in UsedBy(aead, st, ops)
  {
    FlagIsHistory(aead, st, ops, E.Pow256(|st.content|));
  }

  lemma FlagIsHistory(aead: Aead, st: N.State, ops: seq<Op>, size: nat)
    requires st.content != [] && !st.used && Increments(ops) < size == E.Pow256(|st.content|)
    ensures Final(aead, st, ops).used <==> Final(aead, st, ops).content in UsedBy(aead, st, ops)
  {
    RunSpreads(aead, st, ops, size);
    FinalState(aead, st, ops, size);
    UsedKeepTheSize(aead, st, ops);
    N.CounterBound(st.content);
    var used, at := UsedBy(aead, st, ops), Marks(aead, st, ops);
    ConsumedIsLast(used, at, st, Increments(ops), size, Final(aead, st, ops).content);
  }

  lemma {:induction false} UsedKeepTheSize(aead: Aead, st: N.State, ops: seq<Op>)
    ensures forall i :: 0 <= i < |UsedBy(aead, st, ops)| ==> |UsedBy(aead, st, ops)[i]| == |st.content|
    decreases |ops|
  {
    if ops != [] {
      FirstOp(aead, st, ops);
      UsedKeepTheSize(aead, Next(aead, st, ops[0]), ops[1..]);
    }
  }

  lemma ConsumedIsLast(used: seq<bytes>, at: seq<nat>, st: N.State, incs: nat, size: nat, content: bytes)
    requires N.Counter(st.content) < size && incs < size && Spread(used, at, st, incs, size)
    requires forall i :: 0 <= i < |used| ==> |used[i]| == |content|
    requires N.Counter(content) == Ahead(N.Counter(st.content), incs, size)
    ensures content in used <==> at != [] && at[|at| - 1] == incs
  {
    if at != [] && at[|at| - 1] == incs {
      N.CounterInjective(used[|at| - 1], content);
    }
    if content in used {
      var i :| 0 <= i < |used| && used[i] == content;
      var last := |at| - 1;
      assert at[i] == incs && at[i] <= at[last] <= incs;
    }
  }

  // ------------------------------------------------------ two nonce objects

  ghost predicate Disjoint(a: seq<bytes>, b: seq<bytes>) {
    forall i, j :: 0 <= i < |a| && 0 <= j < |b| ==> a[i] != b[j]
  }

  /** No run with up to m increments from one state uses a nonce that some run with up
      to n increments from the other uses. */
  ghost predicate NeverMeet(aead: Aead, st: N.State, m: nat, st': N.State, n: nat) {
    forall ops, ops' :: Increments(ops) <= m && Increments(ops') <= n ==>
      Disjoint(UsedBy(aead, st, ops), UsedBy(aead, st', ops'))
  }

  /** Two unused nonces whose counters are d apart never share a value exactly as long as
      the first is incremented less than d times, and the second less than the rest of
      the cycle. */
  lemma TwoNonces(aead: Aead, st: N.State, st': N.State, d: nat, m: nat, n: nat, enc: Op)
    requires |st.content| == |st'.content| == NPUBBYTES && !st.used && !st'.used
    requires d < E.Pow256(NPUBBYTES) && N.Counter(st'.content) == Ahead(N.Counter(st.content), d, E.Pow256(NPUBBYTES))
    requires AlwaysEncrypts(aead, enc)
    ensures NeverMeet(aead, st, m, st', n) <==> m < d && n < E.Pow256(NPUBBYTES) - d
  {
    EveryNonce(aead, enc);
    ApartExactly(aead, st, st', d, m, n, enc, E.Pow256(|st.content|));
  }

  lemma ApartExactly(aead: Aead, st: N.State, st': N.State, d: nat, m: nat, n: nat, enc: Op, size: nat)
    requires st.content != [] && |st'.content| == |st.content| && !st.used && !st'.used
    requires Consumes(aead, enc, |st.content|)
    requires d < size == E.Pow256(|st.content|) && N.Counter(st'.content) == Ahead(N.Counter(st.content), d, size)
    ensures NeverMeet(aead, st, m, st', n) <==> m < d && n < size - d
  {
    N.CounterBound(st.content);
    RoundTheCycle(N.Counter(st.content), d, size);
    if m < d && n < size - d {
      KeptApart(aead, st, st', d, m, n, size);
    } else {
      var k, l := if m >= d then d else 0, if m >= d then 0 else size - d;
      Meeting(aead, st, k, st', l, m, n, enc, size);
    }
  }

  lemma RoundTheCycle(x: nat, d: nat, size: nat)
    requires x < size && d < size
    ensures Ahead(Ahead(x, d, size), 0, size) == Ahead(x, d, size)
    ensures Ahead(Ahead(x, d, size), size - d, size) == Ahead(x, 0, size)
  {
  }

  ghost predicate AlwaysEncrypts(aead: Aead, enc: Op) {
    enc.EncryptOp? && forall n: bytes :: |n| == NPUBBYTES ==> aead.encrypt(enc.key[..KEYBYTES], n, enc.aad, enc.p).Some?
  }

  /** Under every unused nonce of len bytes the operation succeeds and uses it up. */
  ghost predicate Consumes(aead: Aead, enc: Op, len: nat) {
    enc.EncryptOp? && forall n: bytes :: |n| == len ==> Consumed(aead, N.State(n, false), enc) == [n]
  }

  lemma EveryNonce(aead: Aead, enc: Op)
    requires AlwaysEncrypts(aead, enc)
    ensures Consumes(aead, enc, NPUBBYTES)
  {
  }

  lemma KeptApart(aead: Aead, st: N.State, st': N.State, d: nat, m: nat, n: nat, size: nat)
    requires |st.content| == |st'.content| && size == E.Pow256(|st.content|)
    requires m < d && n < size - d && N.Counter(st'.content) == Ahead(N.Counter(st.content), d, size)
    ensures NeverMeet(aead, st, m, st', n)
  {
    N.CounterBound(st.content);
    forall ops, ops' | Increments(ops) <= m && Increments(ops') <= n
      ensures Disjoint(UsedBy(aead, st, ops), UsedBy(aead, st', ops'))
    {
      RunSpreads(aead, st, ops, size);
      RunSpreads(aead, st', ops', size);
      SpreadsApart(UsedBy(aead, st, ops), Marks(aead, st, ops), st, Increments(ops),
                   UsedBy(aead, st', ops'), Marks(aead, st', ops'), st', Increments(ops'), d, size);
    }
  }

  lemma SpreadsApart(used: seq<bytes>, at: seq<nat>, st: N.State, m: nat,
                     used': seq<bytes>, at': seq<nat>, st': N.State, n: nat, d: nat, size: nat)
    requires Spread(used, at, st, m, size) && Spread(used', at', st', n, size)
    requires m < d && n < size - d && N.Counter(st.content) < size
    requires N.Counter(st'.content) == Ahead(N.Counter(st.content), d, size)
    ensures Disjoint(used, used')
  {
    forall i, j | 0 <= i < |used| && 0 <= j < |used'|
      ensures used[i] != used'[j]
    {
      assert at[i] <= m && at'[j] <= n;
      assert N.Counter(used[i]) != N.Counter(used'[j]);
    }
  }

  /** Increments that take both nonces to the same counter value, and an encryption
      under each. */
  lemma Meeting(aead: Aead, st: N.State, k: nat, st': N.State, l: nat, m: nat, n: nat, enc: Op, size: nat)
    requires st.content != [] && |st'.content| == |st.content| && size == E.Pow256(|st.content|)
    requires !st.used && !st'.used && Consumes(aead, enc, |st.content|) && k <= size && l <= size && k <= m && l <= n
    requires Ahead(N.Counter(st.content), k, size) == Ahead(N.Counter(st'.content), l, size)
    ensures !NeverMeet(aead, st, m, st', n)
  {
    UsesOnly(aead, st, k, enc, size);
    UsesOnly(aead, st', l, enc, size);
    var x := Advanced(st, k).content;
    N.CounterInjective(x, Advanced(st', l).content);
    BothUse(aead, st, Repeat(IncrementOp, k) + [enc], m, st', Repeat(IncrementOp, l) + [enc], n, x);
  }

  lemma BothUse(aead: Aead, st: N.State, ops: seq<Op>, m: nat, st': N.State, ops': seq<Op>, n: nat, x: bytes)
    requires Increments(ops) <= m && Increments(ops') <= n
    requires UsedBy(aead, st, ops) == [x] == UsedBy(aead, st', ops')
    ensures !NeverMeet(aead, st, m, st', n)
  {
    assert UsedBy(aead, st, ops)[0] == UsedBy(aead, st', ops')[0];
    assert !Disjoint(UsedBy(aead, st, ops), UsedBy(aead, st', ops'));
  }

  lemma UsesOnly(aead: Aead, st: N.State, k: nat, enc: Op, size: nat)
    requires st.content != [] && !st.used && k <= size == E.Pow256(|st.content|) && Consumes(aead, enc, |st.content|)
    ensures |Advanced(st, k).content| == |st.content|
    ensures N.Counter(Advanced(st, k).content) == Ahead(N.Counter(st.content), k, size)
    ensures UsedBy(aead, st, Repeat(IncrementOp, k) + [enc]) == [Advanced(st, k).content]
    ensures Increments(Repeat(IncrementOp, k) + [enc]) == k
  {
    AdvancedCounts(st, k, size);
    IncrementsAdvance(aead, st, k, [enc]);
    LastOp(aead, Advanced(st, k), enc);
  }

  /** What Nonce(24) starts with, documented to be random bytes. */
  const FRESH: N.State := N.State(Repeat(0, NPUBBYTES), false)

  /** So two of them meet at once: the first encryption under each uses the same nonce. */
  lemma FreshNoncesMeet(aead: Aead, enc: Op)
    requires AlwaysEncrypts(aead, enc)
    ensures UsedBy(aead, FRESH, [enc]) == [FRESH.content] && !NeverMeet(aead, FRESH, 0, FRESH, 0)
  {
    LastOp(aead, FRESH, enc);
    assert aead.encrypt(enc.key[..KEYBYTES], FRESH.content, enc.aad, enc.p).Some?;
    BothUse(aead, FRESH, [enc], 0, FRESH, [enc], 0, FRESH.content);
  }

  // ------------------------------------------------------------ lazy nonces

  /** What can be done with a lazy nonce; either operation may draw random bytes. */
  datatype LazyOp = Generate(draw: bytes) | Seal(key: Key, aad: bytes, p: bytes, fill: Draw)

  /** What Nonce() starts with. */
  const NEW: N.State := N.State([], false)

  type Draw = d: bytes | |d| == 24 witness Repeat(0, 24)

  function LazyNext(aead: Aead, st: N.State, op: LazyOp): N.State {
    match op
    case Generate(draw) => N.State(draw, false)
    case Seal(key, aad, p, fill) => Attempt(aead, N.Lazy, st, key, aad, p, fill).1
  }

  predicate Sealed(aead: Aead, st: N.State, op: LazyOp) {
    op.Seal? && Attempt(aead, N.Lazy, st, op.key, op.aad, op.p, op.fill).0.Ok?
  }

  /** The values the successful encryptions of a run on a lazy nonce used, in order. */
  function LazyUsed(aead: Aead, st: N.State, ops: seq<LazyOp>): seq<bytes>
    decreases |ops|
  {
    if ops == [] then []
    else
      var st' := LazyNext(aead, st, ops[0]);
      (if Sealed(aead, st, ops[0]) then [st'.content] else []) + LazyUsed(aead, st', ops[1..])
  }

  function Held(st: N.State): seq<bytes> {
    if st.content == [] then [] else [st.content]
  }

  /** The bytes an operation draws into the nonce. */
  function Drawn(st: N.State, op: LazyOp): seq<bytes> {
    match op
    case Generate(draw) => if draw == [] then [] else [draw]
    case Seal(_, _, _, fill) => if st == N.State([], false) then [fill] else []
  }

  function AllDrawn(aead: Aead, st: N.State, ops: seq<LazyOp>): seq<bytes>
    decreases |ops|
  {
    if ops == [] then [] else Drawn(st, ops[0]) + AllDrawn(aead, LazyNext(aead, st, ops[0]), ops[1..])
  }

  /** Encryption i used fill at[i], no two the same, and from a used nonce none uses what it
      holds. */
  ghost predicate OneFillEach(used: seq<bytes>, at: seq<nat>, st: N.State, fills: seq<bytes>) {
    && |used| == |at|
    && (forall i :: 0 <= i < |at| ==> (if st.used then |Held(st)| else 0) <= at[i] < |fills| && used[i] == fills[at[i]])
    && (forall i, j :: 0 <= i < j < |at| ==> at[i] < at[j])
  }

  /** Over every run on a lazy nonce each successful encryption uses a draw of its own, as
      it was drawn: what the nonce holds at the start, or one made on the way. */
  lemma {:induction false} LazyRun(aead: Aead, st: N.State, ops: seq<LazyOp>) returns (at: seq<nat>)
    ensures OneFillEach(LazyUsed(aead, st, ops), at, st, Held(st) + AllDrawn(aead, st, ops))
    decreases |ops|
  {
    if ops == [] {
      at := [];
    } else {
      var st', rest := LazyNext(aead, st, ops[0]), ops[1..];
      at := LazyRun(aead, st', rest);
      var used, drawn := LazyUsed(aead, st', rest), AllDrawn(aead, st', rest);
      if ops[0].Generate? {
        GenerateFirst(aead, st, ops);
        at := AfterGenerate(used, at, st, st', Held(st') + drawn);
      } else {
        SealFirst(aead, st, ops);
        SealHolds(aead, st, ops[0]);
        if Sealed(aead, st, ops[0]) {
          at := AfterSealing(used, at, st, st', drawn);
        } else {
          assert [] + used == used;
        }
      }
    }
  }

  lemma AfterGenerate(used: seq<bytes>, at: seq<nat>, st: N.State, st': N.State, fills: seq<bytes>)
    returns (at': seq<nat>)
    requires !st'.used && OneFillEach(used, at, st', fills)
    ensures OneFillEach(used, at', st, Held(st) + fills)
  {
    at' := seq(|at|, i requires 0 <= i < |at| => at[i] + |Held(st)|);
  }

  lemma AfterSealing(used: seq<bytes>, at: seq<nat>, st: N.State, st': N.State, drawn: seq<bytes>)
    returns (at': seq<nat>)
    requires !st.used && st'.used && Held(st') == [st'.content]
    requires OneFillEach(used, at, st', Held(st') + drawn)
    ensures OneFillEach([st'.content] + used, at', st, Held(st') + drawn)
  {
    at' := [0] + at;
  }

  /** What a first operation contributes: new random bytes replace what was held, ... */
  lemma GenerateFirst(aead: Aead, st: N.State, ops: seq<LazyOp>)
    requires ops != [] && ops[0].Generate?
    ensures var st', rest := N.State(ops[0].draw, false), ops[1..];
      && LazyUsed(aead, st, ops) == LazyUsed(aead, st', rest)
      && AllDrawn(aead, st, ops) == Held(st') + AllDrawn(aead, st', rest)
  {
  }

  /** ... and an attempt fills the nonce if it is new, and uses what it then holds up if it
      succeeds. */
  lemma SealFirst(aead: Aead, st: N.State, ops: seq<LazyOp>)
    requires ops != [] && ops[0].Seal?
    ensures var st', rest := LazyNext(aead, st, ops[0]), ops[1..];
      && Held(st) + AllDrawn(aead, st, ops) == Held(st') + AllDrawn(aead, st', rest)
      && LazyUsed(aead, st, ops)
           == (if Sealed(aead, st, ops[0]) then [st'.content] else []) + LazyUsed(aead, st', rest)
  {
    var st', drawn := LazyNext(aead, st, ops[0]), AllDrawn(aead, LazyNext(aead, st, ops[0]), ops[1..]);
    SealHolds(aead, st, ops[0]);
    assert AllDrawn(aead, st, ops) == Drawn(st, ops[0]) + drawn;
    assert Held(st) + (Drawn(st, ops[0]) + drawn) == Held(st) + Drawn(st, ops[0]) + drawn;
  }

  lemma SealHolds(aead: Aead, st: N.State, op: LazyOp)
    requires op.Seal?
    ensures var st' := LazyNext(aead, st, op);
      && Held(st') == Held(st) + Drawn(st, op)
      && (if Sealed(aead, st, op) then !st.used && st'.used && Held(st') == [st'.content]
          else st'.used == st.used && (st.used ==> st' == st))
  {
    AttemptDecides(aead, N.Lazy, st, op.key, op.aad, op.p, op.fill);
  }

  /** So as long as the random draws differ, no value is ever used twice. */
  lemma DifferentDrawsSuffice(aead: Aead, ops: seq<LazyOp>)
    requires Distinct(AllDrawn(aead, NEW, ops))
    ensures Distinct(LazyUsed(aead, NEW, ops))
  {
    var at := LazyRun(aead, NEW, ops);
    assert Held(NEW) + AllDrawn(aead, NEW, ops) == AllDrawn(aead, NEW, ops);
  }

  /** The value an encryption uses on a new lazy nonce, if it succeeds. */
  function OnNew(aead: Aead, op: LazyOp): seq<bytes> {
    LazyUsed(aead, NEW, [op])
  }

  /** Its draw, if the primitive encrypts under it. */
  function IfSealed(aead: Aead, op: LazyOp): seq<bytes>
    requires op.Seal?
  {
    if aead.encrypt(op.key[..32], op.fill, op.aad, op.p).Some? then [op.fill] else []
  }

  /** Encryptions each on a lazy nonce of its own use pairwise different values exactly if
      the draws of those that succeed differ, and each ciphertext is under its draw. */
  lemma NewLazyNonces(aead: Aead, ops: seq<LazyOp>)
    requires forall i :: 0 <= i < |ops| ==> ops[i].Seal?
    ensures forall i :: 0 <= i < |ops| ==> OnNew(aead, ops[i]) == IfSealed(aead, ops[i])
    ensures (forall i, j :: 0 <= i < j < |ops| && OnNew(aead, ops[i]) != [] && OnNew(aead, ops[j]) != [] ==>
               OnNew(aead, ops[i]) != OnNew(aead, ops[j]))
      <==> (forall i, j :: 0 <= i < j < |ops| && OnNew(aead, ops[i]) != [] && OnNew(aead, ops[j]) != [] ==>
               ops[i].fill != ops[j].fill)
  {
    forall i | 0 <= i < |ops|
      ensures OnNew(aead, ops[i]) == IfSealed(aead, ops[i])
    {
      OneOnNew(aead, ops[i]);
    }
  }

  lemma OneOnNew(aead: Aead, op: LazyOp)
    requires op.Seal?
    ensures OnNew(aead, op) == IfSealed(aead, op)
  {
    AttemptDecides(aead, N.Lazy, NEW, op.key, op.aad, op.p, op.fill);
    var st' := LazyNext(aead, NEW, op);
    assert [op][1..] == [] && LazyUsed(aead, st', []) == [];
    assert LazyUsed(aead, NEW, [op]) == if Sealed(aead, NEW, op) then [st'.content] else [];
  }

  // ------------------------------------------------------------- a client

  /** A client that carries out such a run on a nonce object and collects the nonces of
      its ciphertexts. */
  method Replay(aead: Aead, nonce: N.Nonce, ops: seq<Op>) returns (used: seq<bytes>)
    requires nonce.mode == N.Eager && nonce.vec.Length == NPUBBYTES
    requires Increments(ops) < E.Pow256(NPUBBYTES)
    modifies nonce, nonce.vec
    ensures used == old(UsedBy(aead, nonce.View(), ops))
    ensures Distinct(used)
  {
    NoncesNeverRepeat(aead, nonce.View(), ops);
    used := PerformAll(aead, nonce, ops);
  }

  method PerformAll(aead: Aead, nonce: N.Nonce, ops: seq<Op>) returns (used: seq<bytes>)
    requires nonce.mode == N.Eager
    modifies nonce, nonce.vec
    ensures used == old(UsedBy(aead, nonce.View(), ops))
  {
    ghost var start := nonce.View();
    used := [];
    for n := 0 to |ops|
      invariant nonce.vec == old(nonce.vec)
      invariant UsedBy(aead, start, ops) == used + UsedBy(aead, nonce.View(), ops[n..])
    {
      ghost var st := nonce.View();
      var content := Perform(aead, nonce, ops[n]);
      UsedByStep(aead, st, ops, n);
      used := used + content;
    }
  }

  lemma UsedByStep(aead: Aead, st: N.State, ops: seq<Op>, n: nat)
    requires n < |ops|
    ensures UsedBy(aead, st, ops[n..])
      == Consumed(aead, st, ops[n]) + UsedBy(aead, Next(aead, st, ops[n]), ops[n + 1..])
  {
  }

  method Perform(aead: Aead, nonce: N.Nonce, op: Op) returns (consumed: seq<bytes>)
    requires nonce.mode == N.Eager
    modifies nonce, nonce.vec
    ensures nonce.vec == old(nonce.vec)
    ensures nonce.View() == Next(aead, old(nonce.View()), op)
    ensures consumed == Consumed(aead, old(nonce.View()), op)
  {
    match op
    case IncrementOp =>
      nonce.Increment();
      consumed := [];
    case EncryptOp(key, aad, p) =>
      var content := nonce.vec[..];
      var r := Encrypt(aead, p, key, nonce, aad, Repeat(0, NPUBBYTES));
      consumed := if r.Ok? then [content] else [];
  }

  /** A client of a lazy nonce, which collects what each successful encryption used. */
  method LazyReplay(aead: Aead, nonce: N.Nonce, ops: seq<LazyOp>) returns (used: seq<bytes>)
    requires nonce.mode == N.Lazy && nonce.View() == NEW
    modifies nonce
    ensures used == LazyUsed(aead, NEW, ops)
    ensures Distinct(AllDrawn(aead, NEW, ops)) ==> Distinct(used)
  {
    used := [];
    for n := 0 to |ops|
      invariant LazyUsed(aead, NEW, ops) == used + LazyUsed(aead, nonce.View(), ops[n..])
    {
      ghost var st := nonce.View();
      var value := PerformLazy(aead, nonce, ops[n]);
      LazyUsedByStep(aead, st, ops, n);
      used := used + value;
    }
    if Distinct(AllDrawn(aead, NEW, ops)) {
      DifferentDrawsSuffice(aead, ops);
    }
  }

  lemma LazyUsedByStep(aead: Aead, st: N.State, ops: seq<LazyOp>, n: nat)
    requires n < |ops|
    ensures var st' := LazyNext(aead, st, ops[n]);
      LazyUsed(aead, st, ops[n..])
        == (if Sealed(aead, st, ops[n]) then [st'.content] else []) + LazyUsed(aead, st', ops[n + 1..])
  {
    assert ops[n..][0] == ops[n] && ops[n..][1..] == ops[n + 1..];
  }

  method PerformLazy(aead: Aead, nonce: N.Nonce, op: LazyOp) returns (value: seq<bytes>)
    requires nonce.mode == N.Lazy
    modifies nonce
    ensures nonce.View() == LazyNext(aead, old(nonce.View()), op)
    ensures value == if Sealed(aead, old(nonce.View()), op) then [nonce.View().content] else []
  {
    match op
    case Generate(draw) =>
      nonce.RandomGenerate(draw);
      value := [];
    case Seal(key, aad, p, fill) =>
      var r := Encrypt(aead, p, key, nonce, aad, fill);
      value := if r.Ok? then [nonce.vec[..]] else [];
  }
}

/** The rotation protocol: a store of tokens and a ring of keys, over whole runs of
    encrypting, rotating, putting a key in front and retiring a key. */
module Rotation {
  import opened Prelude
  import B = Base64
  import S = Secretbox
  import T = TokenFormat
  import Ttl
  import Spec = NatronSpec
  import MK = NatronMultiKey

  /** Besides the ring and the tokens, the history: token i was first made for plains[i],
      which no step ever changes, and last sealed at times[i]. */
  datatype State = State(keys: seq<S.Key>, tokens: seq<string>, plains: seq<bytes>, times: seq<u64>)

  datatype Step =
    | Encrypt(p: bytes, at: u64, draw: S.NonceBytes)
    | Rotate(i: nat, ttl: Option<i64>, now: u64, at: u64, draw: S.NonceBytes)
    | Prepend(key: S.Key)
    | Retire(j: nat)

  function Without<X>(xs: seq<X>, j: nat): seq<X>
    requires j < |xs|
  {
    xs[..j] + xs[j + 1..]
  }

  ghost predicate Shaped(st: State) {
    Spec.ValidKeys(st.keys) && |st.tokens| == |st.plains| == |st.times|
  }

  /** A step that ends in an exception leaves everything as it was. */
  ghost function Next(box: S.Box, st: State, step: Step): (st': State)
    requires Shaped(st)
    ensures Shaped(st')
  {
    match step
    case Encrypt(p, at, draw) =>
      (match Spec.Encrypt(box, p, st.keys[0], at, draw)
       case Err(_) => st
       case Ok(token) => State(st.keys, st.tokens + [token], st.plains + [p], st.times + [at]))
    case Rotate(i, ttl, now, at, draw) =>
      if i >= |st.tokens| then st
      else (match Spec.Rotate(box, st.keys, st.tokens[i], ttl, now, at, draw)
            case Err(_) => st
            case Ok(token) => st.(tokens := st.tokens[i := token], times := st.times[i := at]))
    case Prepend(key) => WithRing(st, [key] + st.keys)
    case Retire(j) => if j >= |st.keys| then st else WithRing(st, Without(st.keys, j))
  }

  /** A new ring, unless NatronMultiKey refuses the list. */
  ghost function WithRing(st: State, keys: seq<S.Key>): State {
    if Spec.ValidKeys(keys) then st.(keys := keys) else st
  }

  ghost predicate Reads(box: S.Box, keys: seq<S.Key>, token: string, p: bytes) {
    Spec.RingDecrypt(box, keys, token, None, 0) == Ok(p)
  }

  /** Every token reads through the ring as what it was made for, and states the time it
      was last sealed at. */
  ghost predicate Safe(box: S.Box, st: State) {
    && Shaped(st)
    && forall i :: 0 <= i < |st.tokens| ==>
         Reads(box, st.keys, st.tokens[i], st.plains[i]) && Spec.TokenTimestamp(st.tokens[i]) == Ok(st.times[i])
  }

  /** Without a TTL the clock does not matter. */
  lemma {:induction false} AnyClock(box: S.Box, keys: seq<S.Key>, raw: bytes, now: u64)
    ensures Spec.RingOpen(box, keys, raw, None, now) == Spec.RingOpen(box, keys, raw, None, 0)
  {
    if keys != [] { AnyClock(box, keys[1..], raw, now); }
  }

  // ------------------------------------------------- the operator's conditions

  /** The key opens the token, whatever comes out. */
  ghost predicate Opens(box: S.Box, key: S.Key, token: string) {
    && B.Decode(token, Spec.VARIANT).Some?
    && T.Open(box, B.Decode(token, Spec.VARIANT).value, key).Ok?
  }

  /** A key put in front does not open the token, or only to the same plaintext. */
  ghost predicate MayPrepend(box: S.Box, key: S.Key, token: string, p: bytes) {
    Opens(box, key, token) ==> T.Open(box, B.Decode(token, Spec.VARIANT).value, key) == Ok(p)
  }

  /** A retired key is not the first that opens the token, or those after it read it the
      same. */
  ghost predicate MayRetire(box: S.Box, keys: seq<S.Key>, j: nat, token: string, p: bytes)
    requires j < |keys|
  {
    && B.Decode(token, Spec.VARIANT).Some?
    && (Spec.FirstOpener(box, keys, B.Decode(token, Spec.VARIANT).value, j) ==> Reads(box, keys[j + 1..], token, p))
  }

  /** What a step has to meet: nothing, except when it does change the ring. */
  ghost predicate Meets(box: S.Box, st: State, step: Step)
    requires Shaped(st)
  {
    match step
    case Prepend(key) => Spec.ValidKeys([key] + st.keys) ==>
      forall i :: 0 <= i < |st.tokens| ==> MayPrepend(box, key, st.tokens[i], st.plains[i])
    case Retire(j) => j < |st.keys| && Spec.ValidKeys(Without(st.keys, j)) ==>
      forall i :: 0 <= i < |st.tokens| ==> MayRetire(box, st.keys, j, st.tokens[i], st.plains[i])
    case _ => true
  }

  /** Putting a key in front of the ring keeps a readable token readable exactly when
      that key does not open it to something else. */
  lemma PrependExact(box: S.Box, keys: seq<S.Key>, key: S.Key, token: string, p: bytes)
    requires keys != [] && Reads(box, keys, token, p)
    ensures Reads(box, [key] + keys, token, p) <==> MayPrepend(box, key, token, p)
  {
    assert ([key] + keys)[1..] == keys;
    var raw := B.Decode(token, Spec.VARIANT).value;
    T.MalformedUnderEveryKey(box, raw, key);
    Spec.RingIsFirstMatch(box, keys, raw, None, 0);
  }

  /** Retiring key j does exactly when j is not the first key that opens the token, or
      the keys after it read the token the same. */
  lemma RetireExact(box: S.Box, keys: seq<S.Key>, j: nat, token: string, p: bytes)
    requires j < |keys| && Reads(box, keys, token, p)
    ensures Reads(box, Without(keys, j), token, p) <==> MayRetire(box, keys, j, token, p)
  {
    var raw := B.Decode(token, Spec.VARIANT).value;
    Spec.RingIsFirstMatch(box, keys, raw, None, 0);
    var f :| Spec.FirstOpener(box, keys, raw, f);
    if f == j {
      SkipClosed(box, keys[..j], keys[j + 1..], raw);
    } else {
      assert !Spec.FirstOpener(box, keys, raw, j);
      RetireKeepsOpener(box, keys, j, raw, f);
      Spec.RingIsFirstMatch(box, Without(keys, j), raw, None, 0);
    }
  }

  lemma RetireKeepsOpener(box: S.Box, keys: seq<S.Key>, j: nat, raw: bytes, f: int)
    requires j < |keys| && Spec.FirstOpener(box, keys, raw, f) && f != j
    ensures var g := if f < j then f else f - 1;
      Spec.FirstOpener(box, Without(keys, j), raw, g) && Without(keys, j)[g] == keys[f]
  {
  }

  lemma {:induction false} SkipClosed(box: S.Box, closed: seq<S.Key>, rest: seq<S.Key>, raw: bytes)
    requires T.Parse(raw).Ok? && forall i :: 0 <= i < |closed| ==> T.Open(box, raw, closed[i]).Err?
    ensures Spec.RingOpen(box, closed + rest, raw, None, 0) == Spec.RingOpen(box, rest, raw, None, 0)
  {
    if closed == [] {
      assert closed + rest == rest;
    } else {
      assert (closed + rest)[1..] == closed[1..] + rest;
      SkipClosed(box, closed[1..], rest, raw);
    }
  }

  /** The plain forms of the conditions: a key that opens no token may be put in front,
      and so may the key of the ring that opens it first; a key that opens no token may be
      retired, and so may one whose copy k comes before any other key that opens one. */
  lemma SufficientConditions(box: S.Box, keys: seq<S.Key>, j: nat, k: nat, key: S.Key, token: string, p: bytes)
    requires j < |keys| && Reads(box, keys, token, p)
    ensures !Opens(box, key, token) ==> MayPrepend(box, key, token, p)
    ensures Spec.FirstOpener(box, keys, B.Decode(token, Spec.VARIANT).value, j) ==> MayPrepend(box, keys[j], token, p)
    ensures !Opens(box, keys[j], token) ==> MayRetire(box, keys, j, token, p)
    ensures j < k < |keys| && keys[k] == keys[j] && (forall i :: j < i < k ==> !Opens(box, keys[i], token))
      ==> MayRetire(box, keys, j, token, p)
  {
    var raw := B.Decode(token, Spec.VARIANT).value;
    Spec.RingIsFirstMatch(box, keys, raw, None, 0);
    if j < k < |keys| && keys[k] == keys[j] && Spec.FirstOpener(box, keys, raw, j) {
      Spec.RingIsFirstMatch(box, keys[j + 1..], raw, None, 0);
      if forall i :: j < i < k ==> !Opens(box, keys[i], token) {
        assert Spec.FirstOpener(box, keys[j + 1..], raw, k - j - 1);
      }
    }
  }

  // ---------------------------------------------------------------- the steps

  lemma FreshReads(box: S.Box, keys: seq<S.Key>, p: bytes, at: u64, draw: S.NonceBytes)
    requires keys != [] && Spec.Encrypt(box, p, keys[0], at, draw).Ok?
    ensures var token := Spec.Encrypt(box, p, keys[0], at, draw).value;
      Reads(box, keys, token, p) && Spec.TokenTimestamp(token) == Ok(at) && Opens(box, keys[0], token)
  {
    Spec.FreshToken(box, p, keys[0], at, draw);
    T.SealOpens(box, p, keys[0], at, draw);
  }

  /** Whatever TTL rotate is given, what it re-encrypts is the original plaintext; it is
      refused exactly when the token states an age beyond that TTL. */
  lemma RotatedPlain(box: S.Box, st: State, i: nat, ttl: Option<i64>, now: u64)
    requires Safe(box, st) && i < |st.tokens|
    ensures Spec.RingDecrypt(box, st.keys, st.tokens[i], ttl, now)
      == Spec.Checked(st.plains[i], Ttl.RingCheck(st.times[i], now, ttl))
  {
    Spec.RingAge(box, st.keys, st.tokens[i], ttl, 0, now);
  }

  /** A step that meets its condition keeps every token readable, and one that does not
      makes some token unreadable or read as something else. */
  lemma StepKeepsExactly(box: S.Box, st: State, step: Step)
    requires Safe(box, st)
    ensures Safe(box, Next(box, st, step)) <==> Meets(box, st, step)
    ensures st.plains <= Next(box, st, step).plains
  {
    match step
    case Encrypt(p, at, draw) => EncryptKeeps(box, st, p, at, draw);
    case Rotate(i, ttl, now, at, draw) => RotateKeeps(box, st, i, ttl, now, at, draw);
    case Prepend(key) => PrependKeepsExactly(box, st, key);
    case Retire(j) => RetireKeepsExactly(box, st, j);
  }

  lemma EncryptKeeps(box: S.Box, st: State, p: bytes, at: u64, draw: S.NonceBytes)
    requires Safe(box, st)
    ensures Safe(box, Next(box, st, Encrypt(p, at, draw)))
  {
    if Spec.Encrypt(box, p, st.keys[0], at, draw).Ok? {
      FreshReads(box, st.keys, p, at, draw);
    }
  }

  lemma RotateKeeps(box: S.Box, st: State, i: nat, ttl: Option<i64>, now: u64, at: u64, draw: S.NonceBytes)
    requires Safe(box, st)
    ensures Safe(box, Next(box, st, Rotate(i, ttl, now, at, draw)))
  {
    if i < |st.tokens| {
      RotatedPlain(box, st, i, ttl, now);
      if Spec.Rotate(box, st.keys, st.tokens[i], ttl, now, at, draw).Ok? {
        FreshReads(box, st.keys, st.plains[i], at, draw);
      }
    }
  }

  lemma PrependKeepsExactly(box: S.Box, st: State, key: S.Key)
    requires Safe(box, st)
    ensures Safe(box, Next(box, st, Prepend(key))) <==> Meets(box, st, Prepend(key))
  {
    forall i | 0 <= i < |st.tokens|
      ensures Reads(box, [key] + st.keys, st.tokens[i], st.plains[i])
        <==> MayPrepend(box, key, st.tokens[i], st.plains[i])
    {
      PrependExact(box, st.keys, key, st.tokens[i], st.plains[i]);
    }
  }

  lemma RetireKeepsExactly(box: S.Box, st: State, j: nat)
    requires Safe(box, st)
    ensures Safe(box, Next(box, st, Retire(j))) <==> Meets(box, st, Retire(j))
  {
    if j < |st.keys| {
      forall i | 0 <= i < |st.tokens|
        ensures Reads(box, Without(st.keys, j), st.tokens[i], st.plains[i])
          <==> MayRetire(box, st.keys, j, st.tokens[i], st.plains[i])
      {
        RetireExact(box, st.keys, j, st.tokens[i], st.plains[i]);
      }
    }
  }

  /** The other steps do what they are for: a plaintext the primitive seals is stored, a key
      of 32 bytes goes to the front, any key but the only one can be taken out. */
  lemma StepsTakeEffect(box: S.Box, st: State, p: bytes, at: u64, draw: S.NonceBytes, key: S.Key, j: nat)
    requires Shaped(st)
    ensures var st' := Next(box, st, Encrypt(p, at, draw));
      if box.seal(st.keys[0], draw, p).Some? then
        && st'.keys == st.keys && |st'.tokens| == |st.tokens| + 1 && st.tokens <= st'.tokens
        && st'.plains == st.plains + [p] && st'.times == st.times + [at]
      else st' == st
    ensures Next(box, st, Prepend(key)) == if |key| == 32 then st.(keys := [key] + st.keys) else st
    ensures Next(box, st, Retire(j))
      == if j < |st.keys| && |st.keys| > 1 then st.(keys := st.keys[..j] + st.keys[j + 1..]) else st
  {
    Spec.RoundTrip(box, p, st.keys[0], at, draw);
    PrependValid(key, st.keys);
    if j < |st.keys| {
      WithoutValid(st.keys, j);
    }
  }

  lemma PrependValid(key: S.Key, keys: seq<S.Key>)
    requires Spec.ValidKeys(keys)
    ensures Spec.ValidKeys([key] + keys) <==> |key| == S.KEYBYTES
  {
    assert ([key] + keys)[0] == key;
  }

  lemma WithoutValid(keys: seq<S.Key>, j: nat)
    requires Spec.ValidKeys(keys) && j < |keys|
    ensures Spec.ValidKeys(Without(keys, j)) <==> |keys| > 1
  {
  }

  // ----------------------------------------------------------------- the runs

  ghost function Run(box: S.Box, st: State, steps: seq<Step>): State
    requires Shaped(st)
    decreases |steps|
  {
    if steps == [] then st else Run(box, Next(box, st, steps[0]), steps[1..])
  }

  /** Every step of the run meets its condition in the state it is taken in. */
  ghost predicate AllMeet(box: S.Box, st: State, steps: seq<Step>)
    requires Shaped(st)
    decreases |steps|
  {
    steps == [] || (Meets(box, st, steps[0]) && AllMeet(box, Next(box, st, steps[0]), steps[1..]))
  }

  ghost predicate AlwaysSafe(box: S.Box, st: State, steps: seq<Step>)
    requires Shaped(st)
    decreases |steps|
  {
    Safe(box, st) && (steps == [] || AlwaysSafe(box, Next(box, st, steps[0]), steps[1..]))
  }

  /** Every run from a safe store is safe throughout exactly when all its steps meet their
      conditions. At its end every token, those stored on the way and those there before,
      reads at any time as the plaintext it was first made for; and under a TTL it is
      accepted exactly until it is older than that, counted from its last sealing. */
  lemma {:induction false} RunsKeepEveryPlaintext(box: S.Box, st: State, steps: seq<Step>)
    requires Safe(box, st)
    ensures AlwaysSafe(box, st, steps) <==> AllMeet(box, st, steps)
    ensures AllMeet(box, st, steps) ==> st.plains <= Run(box, st, steps).plains && Kept(box, Run(box, st, steps))
    decreases |steps|
  {
    if steps == [] {
      SafeIsKept(box, st);
    } else {
      StepKeepsExactly(box, st, steps[0]);
      if Meets(box, st, steps[0]) {
        RunsKeepEveryPlaintext(box, Next(box, st, steps[0]), steps[1..]);
      } else if |steps| == 1 {
        assert !Safe(box, Next(box, st, steps[0]));
      }
    }
  }

  ghost predicate Kept(box: S.Box, st: State) {
    && Shaped(st)
    && (forall i, clock: u64 :: 0 <= i < |st.tokens| ==>
          Spec.RingDecrypt(box, st.keys, st.tokens[i], None, clock) == Ok(st.plains[i]))
    && (forall i, clock: u64, ttl: i64 :: 0 <= i < |st.tokens| && ttl >= 0 ==>
          Spec.RingDecrypt(box, st.keys, st.tokens[i], Some(ttl), clock)
            == if clock - st.times[i] <= ttl then Ok(st.plains[i]) else Err(ExpiredToken(clock - st.times[i])))
  }

  lemma SafeIsKept(box: S.Box, st: State)
    requires Safe(box, st)
    ensures Kept(box, st)
  {
    forall i, clock: u64, ttl: Option<i64> | 0 <= i < |st.tokens|
      ensures Spec.RingDecrypt(box, st.keys, st.tokens[i], ttl, clock)
        == Spec.Checked(st.plains[i], Ttl.RingCheck(st.times[i], clock, ttl))
    {
      RotatedPlain(box, st, i, ttl, clock);
    }
  }

  /** A run may start from any store the ring can read, the empty one included. */
  lemma {:induction false} ReadableStoreIsSafe(box: S.Box, keys: seq<S.Key>, tokens: seq<string>, plains: seq<bytes>)
    returns (times: seq<u64>)
    requires Spec.ValidKeys(keys) && |tokens| == |plains|
    requires forall i :: 0 <= i < |tokens| ==> Reads(box, keys, tokens[i], plains[i])
    ensures Safe(box, State(keys, tokens, plains, times))
  {
    if tokens == [] {
      times := [];
    } else {
      var n := |tokens| - 1;
      Spec.RingAge(box, keys, tokens[n], None, 0, 0);
      times := ReadableStoreIsSafe(box, keys, tokens[..n], plains[..n]);
      times := times + [Spec.TokenTimestamp(tokens[n]).value];
    }
  }

  // --------------------------------------------------------------- migration

  /** The tokens the active key does not open. */
  ghost function Stale(box: S.Box, st: State): set<int>
    requires st.keys != []
  {
    set i | 0 <= i < |st.tokens| && !Opens(box, st.keys[0], st.tokens[i])
  }

  /** Whether the active key opens the token or another one does, rotate refuses it exactly
      if it is older than the TTL given, counted from its last sealing, and says so; else
      only the primitive can fail. */
  lemma RotateHonoursTheTtl(box: S.Box, st: State, i: nat, ttl: Option<i64>, now: u64, at: u64, draw: S.NonceBytes)
    requires Safe(box, st) && i < |st.tokens|
    ensures var r := Spec.Rotate(box, st.keys, st.tokens[i], ttl, now, at, draw);
      match Ttl.RingCheck(st.times[i], now, ttl)
      case Some(e) => r == Err(e)
      case None =>
        && (r.Ok? <==> box.seal(st.keys[0], draw, st.plains[i]).Some?)
        && (r.Err? ==> r.error == RuntimeError)
  {
    RotatedPlain(box, st, i, ttl, now);
    Spec.RoundTrip(box, st.plains[i], st.keys[0], at, draw);
  }

  /** A rotation that is not refused takes its token, and nothing else, off the list if it
      is on it, and restarts its age; one that is refused changes nothing. */
  lemma RotateMakesProgress(box: S.Box, st: State, i: nat, ttl: Option<i64>, now: u64, at: u64, draw: S.NonceBytes)
    requires Safe(box, st) && i < |st.tokens|
    ensures var st' := Next(box, st, Rotate(i, ttl, now, at, draw));
      if Ttl.RingCheck(st.times[i], now, ttl) == None && box.seal(st.keys[0], draw, st.plains[i]).Some?
      then
        && Stale(box, st') == Stale(box, st) - {i} && (i in Stale(box, st) ==> |Stale(box, st')| < |Stale(box, st)|)
        && st'.times == st.times[i := at] && st'.plains == st.plains && st'.keys == st.keys
        && forall j :: 0 <= j < |st.tokens| && j != i ==> st'.tokens[j] == st.tokens[j]
      else st' == st
  {
    RotateHonoursTheTtl(box, st, i, ttl, now, at, draw);
    var r := Spec.Rotate(box, st.keys, st.tokens[i], ttl, now, at, draw);
    if r.Ok? {
      RotatedPlain(box, st, i, ttl, now);
      FreshReads(box, st.keys, st.plains[i], at, draw);
      StaleLosesOne(box, st, i, r.value, at);
    }
  }

  lemma StaleLosesOne(box: S.Box, st: State, i: int, token: string, at: u64)
    requires Shaped(st) && 0 <= i < |st.tokens| && Opens(box, st.keys[0], token)
    ensures var st' := st.(tokens := st.tokens[i := token], times := st.times[i := at]);
      Stale(box, st') == Stale(box, st) - {i} && (i in Stale(box, st) ==> |Stale(box, st')| < |Stale(box, st)|)
  {
    var st' := st.(tokens := st.tokens[i := token], times := st.times[i := at]);
    assert Stale(box, st') == Stale(box, st) - {i};
  }

  /** When no stale token is left, and only then, the active key alone reads every
      token, as what it was made for. */
  lemma MigrationComplete(box: S.Box, st: State)
    requires Safe(box, st)
    ensures Stale(box, st) == {} <==>
      forall i, clock: u64 :: 0 <= i < |st.tokens| ==>
        Spec.RingDecrypt(box, [st.keys[0]], st.tokens[i], None, clock) == Ok(st.plains[i])
  {
    var alone := [st.keys[0]];
    forall i, clock: u64 | 0 <= i < |st.tokens|
      ensures Spec.RingDecrypt(box, alone, st.tokens[i], None, clock) == Ok(st.plains[i])
        <==> Reads(box, alone, st.tokens[i], st.plains[i])
    {
      AnyClock(box, alone, B.Decode(st.tokens[i], Spec.VARIANT).value, clock);
    }
    forall i | 0 <= i < |st.tokens|
      ensures Reads(box, alone, st.tokens[i], st.plains[i]) <==> i !in Stale(box, st)
    {
      var raw := B.Decode(st.tokens[i], Spec.VARIANT).value;
      Spec.OneKeyRing(box, raw, st.keys[0], None, 0);
    }
  }

  /** The migration loop: t = mk.rotate(t) for every stored token. An exception ends it
      with the tokens before position done rotated and the others untouched; either way
      the ring still reads everything, and what was rotated needs the active key only. */
  method MigrateAll(box: S.Box, ring: MK.Ring, tokens: array<string>, draws: seq<(u64, S.NonceBytes)>,
                    ghost plains: seq<bytes>)
    returns (r: Result<()>, done: nat)
    requires |draws| == |plains| == tokens.Length
    requires forall i :: 0 <= i < tokens.Length ==> Reads(box, ring.keys, tokens[i], plains[i])
    modifies tokens
    ensures done <= tokens.Length && (r.Ok? <==> done == tokens.Length)
    ensures tokens[done..] == old(tokens[done..])
    ensures forall i :: 0 <= i < done ==> Reads(box, ring.keys[..1], tokens[i], plains[i])
    ensures forall i :: 0 <= i < tokens.Length ==> Reads(box, ring.keys, tokens[i], plains[i])
    ensures r.Err? ==> r.error == RuntimeError && box.seal(ring.keys[0], draws[done].1, plains[done]) == None
  {
    done := 0;
    while done < tokens.Length
      invariant done <= tokens.Length
      invariant tokens[done..] == old(tokens[done..])
      invariant forall i :: 0 <= i < done ==> Reads(box, ring.keys[..1], tokens[i], plains[i])
      invariant forall i :: 0 <= i < tokens.Length ==> Reads(box, ring.keys, tokens[i], plains[i])
    {
      var (at, draw) := draws[done];
      RotateOne(box, ring.keys, tokens[done], plains[done], at, draw);
      var t := MK.Rotate(box, ring, tokens[done], None, 0, at, draw);
      if t.Err? {
        return Err(t.error), done;
      }
      tokens[done] := t.value;
      done := done + 1;
    }
    r := Ok(());
  }

  lemma RotateOne(box: S.Box, keys: seq<S.Key>, token: string, p: bytes, at: u64, draw: S.NonceBytes)
    requires Spec.ValidKeys(keys) && Reads(box, keys, token, p)
    ensures match Spec.Rotate(box, keys, token, None, 0, at, draw)
      case Err(e) => e == RuntimeError && box.seal(keys[0], draw, p) == None
      case Ok(t) => Reads(box, keys, t, p) && Reads(box, keys[..1], t, p)
  {
    Spec.RoundTrip(box, p, keys[0], at, draw);
    if Spec.Encrypt(box, p, keys[0], at, draw).Ok? {
      FreshReads(box, keys, p, at, draw);
      FreshReads(box, keys[..1], p, at, draw);
    }
  }
}

/** XChaCha20Poly1305Stream: an encryptor and a decryptor, each with its own primitive
    state, and the session they form over a queue of chunks. */
module Stream {
  import opened Prelude

  const KEYBYTES: nat := 32
  const HEADERBYTES: nat := 24
  const ABYTES: nat := 17
  const TAG_MESSAGE: byte := 0
  const TAG_FINAL: byte := 3

  type Header = h: bytes | |h| == HEADERBYTES witness Repeat(0, HEADERBYTES)

  /** The contents of a crypto_secretstream state. */
  type Inner = bytes

  /** The secretstream primitive. Pushing and pulling return the new state, or None, in
      which case the state is left as it was. */
  datatype Functions = Functions(
    initPush: (bytes, Header) -> Inner,
    initPull: (bytes, Header) -> Option<Inner>,
    push: (Inner, bytes, byte) -> Option<(bytes, Inner)>,
    pull: (Inner, bytes) -> Option<(bytes, byte, Inner)>)

  /** Both sides start in step, and a push is undone by a pull in the same state, which
      ends in the state the push ended in. */
  ghost predicate Lawful(f: Functions) {
    && (forall k: bytes, h: Header :: |k| == KEYBYTES ==> f.initPull(k, h) == Some(f.initPush(k, h)))
    && (forall s: Inner, m: bytes, t: byte :: f.push(s, m, t).Some? ==>
          var (c, s') := f.push(s, m, t).value;
          |c| == |m| + ABYTES && f.pull(s, c) == Some((m, t, s')))
  }

  type Primitive = f: Functions | Lawful(f) witness COUNTING

  /** A lawful primitive whose state counts chunks. */
  const COUNTING: Functions := Functions(
    (k, h) => [],
    (k, h) => Some([]),
    (s, m, t) => Some(CountedPush(s, m, t)),
    (s, c) => CountedPull(s, c))

  function CountedPush(s: Inner, m: bytes, t: byte): (r: (bytes, Inner))
    ensures |r.0| == |m| + ABYTES && CountedPull(s, r.0) == Some((m, t, r.1))
  {
    var c := [t] + Stamp(s) + m;
    assert c[1..17] == Stamp(s) && c[17..] == m;
    (c, s + [0])
  }

  function Stamp(s: Inner): (r: bytes)
    ensures |r| == 16
  {
    Repeat(|s| % 256, 16)
  }

  function CountedPull(s: Inner, c: bytes): Option<(bytes, byte, Inner)> {
    if |c| >= ABYTES && c[1..17] == Stamp(s) then Some((c[17..], c[0], s + [0])) else None
  }

  // ------------------------------------------------------------ the two ends

  datatype End = End(inner: Inner, finalized: bool)

  function Pushed(p: Primitive, e: End, m: bytes, tag: byte): (Result<bytes>, End) {
    if e.finalized then (Err(LogicError(StreamFinalized)), e)
    else match p.push(e.inner, m, tag)
      case None => (Err(RuntimeError), e)
      case Some((c, s)) => (Ok(c), End(s, tag == TAG_FINAL))
  }

  function Pulled(p: Primitive, e: End, c: bytes): (Result<(bytes, byte)>, End) {
    if e.finalized then (Err(LogicError(StreamFinalized)), e)
    else if |c| < ABYTES then (Err(LogicError(ChunkTooShort(|c|))), e)
    else match p.pull(e.inner, c)
      case None => (Err(InvalidSignature), e)
      case Some((m, tag, s)) => (Ok((m, tag)), End(s, tag == TAG_FINAL))
  }

  /** An encryptor that is not finished accepts whatever the primitive does, which with tag
      3 finishes it; any other attempt is reported and changes nothing. */
  lemma PushDecides(p: Primitive, e: End, m: bytes, tag: byte)
    ensures var (r, e') := Pushed(p, e, m, tag);
      && (r.Ok? <==> !e.finalized && p.push(e.inner, m, tag).Some?)
      && (r.Ok? ==> Some((r.value, e'.inner)) == p.push(e.inner, m, tag) && (e'.finalized <==> tag == 3))
      && (r.Err? ==> e' == e && r.error == if e.finalized then LogicError(StreamFinalized) else RuntimeError)
  {
  }

  /** A decryptor delivers nothing but what the primitive authenticates in its state, and
      all of that until it is finished; any other chunk is reported and changes nothing. */
  lemma PullDecides(p: Primitive, e: End, c: bytes)
    ensures var (r, e') := Pulled(p, e, c);
      && (r.Ok? <==> !e.finalized && |c| >= 17 && p.pull(e.inner, c).Some?)
      && (r.Ok? ==> Some((r.value.0, r.value.1, e'.inner)) == p.pull(e.inner, c)
                    && (e'.finalized <==> r.value.1 == 3))
      && (r.Err? ==> e' == e)
      && (e.finalized ==> r == Err(LogicError(StreamFinalized)))
      && (!e.finalized && |c| < 17 ==> r == Err(LogicError(ChunkTooShort(|c|))))
      && (!e.finalized && |c| >= 17 && p.pull(e.inner, c) == None ==> r == Err(InvalidSignature))
  {
  }

  class Encryptor {
    const header: Header
    var inner: Inner
    var finalized: bool

    ghost function View(): End
      reads this
    {
      End(inner, finalized)
    }

    constructor (p: Primitive, key: bytes, draw: Header)
      requires |key| == KEYBYTES
      ensures header == draw && View() == End(p.initPush(key, draw), false)
    {
      header := draw;
      inner := p.initPush(key, draw);
      finalized := false;
    }

    method Update(p: Primitive, data: bytes) returns (r: Result<bytes>)
      modifies this
      ensures (r, View()) == Pushed(p, old(View()), data, TAG_MESSAGE)
    {
      if finalized {
        return Err(LogicError(StreamFinalized));
      }
      match p.push(inner, data, TAG_MESSAGE)
      case None => r := Err(RuntimeError);
      case Some((c, s)) =>
        inner := s;
        r := Ok(c);
    }

    method Finalize(p: Primitive, data: bytes) returns (r: Result<bytes>)
      modifies this
      ensures (r, View()) == Pushed(p, old(View()), data, TAG_FINAL)
    {
      if finalized {
        return Err(LogicError(StreamFinalized));
      }
      match p.push(inner, data, TAG_FINAL)
      case None => r := Err(RuntimeError);
      case Some((c, s)) =>
        inner := s;
        finalized := true;
        r := Ok(c);
    }
  }

  class Decryptor {
    var inner: Inner
    var finalized: bool

    ghost function View(): End
      reads this
    {
      End(inner, finalized)
    }

    constructor (s: Inner)
      ensures View() == End(s, false)
    {
      inner := s;
      finalized := false;
    }

    method Pull(p: Primitive, c: bytes) returns (r: Result<(bytes, byte)>)
      modifies this
      ensures (r, View()) == Pulled(p, old(View()), c)
    {
      if finalized {
        return Err(LogicError(StreamFinalized));
      }
      if |c| < ABYTES {
        return Err(LogicError(ChunkTooShort(|c|)));
      }
      match p.pull(inner, c)
      case None => r := Err(InvalidSignature);
      case Some((m, tag, s)) =>
        inner := s;
        if tag == TAG_FINAL {
          finalized := true;
        }
        r := Ok((m, tag));
    }
  }

  /** The constructors with their key checks. */
  method MakeEncryptor(p: Primitive, key: bytes, draw: Header) returns (r: Result<Encryptor>)
    ensures r.Err? <==> |key| != 32
    ensures r.Err? ==> r.error == LogicError(KeySize(|key|))
    ensures r.Ok? ==> |r.value.header| == 24
    ensures r.Ok? ==> fresh(r.value) && r.value.header == draw && r.value.View() == End(p.initPush(key, draw), false)
  {
    if |key| != KEYBYTES {
      return Err(LogicError(KeySize(|key|)));
    }
    var e := new Encryptor(p, key, draw);
    r := Ok(e);
  }

  method MakeDecryptor(p: Primitive, key: bytes, header: Header) returns (r: Result<Decryptor>)
    ensures |key| != 32 ==> r == Err(LogicError(KeySize(|key|)))
    ensures |key| == 32 ==>
      r.Ok? && fresh(r.value) && r.value.View() == End(p.initPush(key, header), false)
  {
    if |key| != KEYBYTES {
      return Err(LogicError(KeySize(|key|)));
    }
    match p.initPull(key, header)
    case None => r := Err(RuntimeError);
    case Some(s) =>
      var d := new Decryptor(s);
      r := Ok(d);
  }

  // --------------------------------------------------------------- sessions

  /** The two ends and the history: chunk i was made for pushed[i]; the first
      |delivered| chunks have been pulled, the rest are in flight. */
  datatype Session = Session(enc: End, dec: End, sent: seq<bytes>,
                             pushed: seq<(bytes, byte)>, delivered: seq<(bytes, byte)>)

  /** Foreign is a pull of something that is not the next chunk in flight. */
  datatype Op = Update(m: bytes) | Finalize(m: bytes) | Deliver | Foreign(c: bytes)

  function Start(inner: Inner): Session {
    Session(End(inner, false), End(inner, false), [], [], [])
  }

  function PushInto(p: Primitive, st: Session, m: bytes, tag: byte): Session {
    match Pushed(p, st.enc, m, tag)
    case (Err(_), e) => st.(enc := e)
    case (Ok(c), e) => st.(enc := e, sent := st.sent + [c], pushed := st.pushed + [(m, tag)])
  }

  function PullInto(p: Primitive, st: Session, c: bytes): Session {
    match Pulled(p, st.dec, c)
    case (Err(_), d) => st.(dec := d)
    case (Ok(x), d) => st.(dec := d, delivered := st.delivered + [x])
  }

  function Next(p: Primitive, st: Session, op: Op): Session {
    match op
    case Update(m) => PushInto(p, st, m, TAG_MESSAGE)
    case Finalize(m) => PushInto(p, st, m, TAG_FINAL)
    case Deliver => if |st.delivered| < |st.sent| then PullInto(p, st, st.sent[|st.delivered|]) else st
    case Foreign(c) => PullInto(p, st, c)
  }

  /** What is not a genuine chunk is rejected: as too short, because the stream is
      finished, or because it fails to authenticate. */
  predicate Legal(p: Primitive, st: Session, op: Op) {
    op.Foreign? ==> st.dec.finalized || |op.c| < ABYTES || p.pull(st.dec.inner, op.c) == None
  }

  function Run(p: Primitive, st: Session, ops: seq<Op>): Session
    decreases |ops|
  {
    if ops == [] then st else Run(p, Next(p, st, ops[0]), ops[1..])
  }

  predicate LegalRun(p: Primitive, st: Session, ops: seq<Op>)
    decreases |ops|
  {
    ops != [] ==> Legal(p, st, ops[0]) && LegalRun(p, Next(p, st, ops[0]), ops[1..])
  }

  /** Pulling the chunks in order from state s gives the messages and ends in s'. */
  predicate Chain(p: Primitive, s: Inner, chunks: seq<bytes>, msgs: seq<(bytes, byte)>, s': Inner)
    decreases |chunks|
  {
    |chunks| == |msgs| &&
    if chunks == [] then s == s'
    else
      && |chunks[0]| == |msgs[0].0| + ABYTES
      && p.pull(s, chunks[0]).Some?
      && var (m, t, next) := p.pull(s, chunks[0]).value;
         (m, t) == msgs[0] && Chain(p, next, chunks[1..], msgs[1..], s')
  }

  /** MESSAGE chunks, then a FINAL one if the stream is finished. */
  predicate Grammar(msgs: seq<(bytes, byte)>, finished: bool) {
    && (finished ==> msgs != [])
    && forall i :: 0 <= i < |msgs| ==> msgs[i].1 == if finished && i == |msgs| - 1 then TAG_FINAL else TAG_MESSAGE
  }

  ghost predicate Inv(p: Primitive, st: Session) {
    && |st.sent| == |st.pushed| && |st.delivered| <= |st.pushed|
    && (forall i :: 0 <= i < |st.sent| ==> |st.sent[i]| == |st.pushed[i].0| + ABYTES)
    && st.delivered == st.pushed[..|st.delivered|]
    && Chain(p, st.dec.inner, st.sent[|st.delivered|..], st.pushed[|st.delivered|..], st.enc.inner)
    && Grammar(st.pushed, st.enc.finalized)
    && (st.dec.finalized <==> st.enc.finalized && |st.delivered| == |st.pushed|)
  }

  lemma {:induction false} ChainSnoc(p: Primitive, s: Inner, chunks: seq<bytes>, msgs: seq<(bytes, byte)>, s': Inner,
                                     m: bytes, t: byte)
    requires Chain(p, s, chunks, msgs, s') && p.push(s', m, t).Some?
    ensures var (c, s'') := p.push(s', m, t).value;
      Chain(p, s, chunks + [c], msgs + [(m, t)], s'')
    decreases |chunks|
  {
    var (c, s'') := p.push(s', m, t).value;
    if chunks == [] {
      assert Chain(p, s'', [], [], s'');
      assert ([] + [c])[1..] == [] && ([] + [(m, t)])[1..] == [];
    } else {
      var next := p.pull(s, chunks[0]).value.2;
      ChainSnoc(p, next, chunks[1..], msgs[1..], s', m, t);
      assert (chunks + [c])[1..] == chunks[1..] + [c] && (msgs + [(m, t)])[1..] == msgs[1..] + [(m, t)];
    }
  }

  lemma PushKeeps(p: Primitive, st: Session, m: bytes, tag: byte)
    requires Inv(p, st) && (tag == TAG_MESSAGE || tag == TAG_FINAL)
    ensures Inv(p, PushInto(p, st, m, tag))
  {
    var st' := PushInto(p, st, m, tag);
    if Pushed(p, st.enc, m, tag).0.Ok? {
      var n, c := |st.delivered|, p.push(st.enc.inner, m, tag).value.0;
      ChainSnoc(p, st.dec.inner, st.sent[n..], st.pushed[n..], st.enc.inner, m, tag);
      assert st'.sent[n..] == st.sent[n..] + [c] && st'.pushed[n..] == st.pushed[n..] + [(m, tag)];
    }
  }

  /** The next chunk in flight always pulls, and gives what was pushed. */
  lemma DeliverSucceeds(p: Primitive, st: Session)
    requires Inv(p, st) && |st.delivered| < |st.sent|
    ensures var n := |st.delivered|;
      Pulled(p, st.dec, st.sent[n]).0 == Ok(st.pushed[n]) && Inv(p, Next(p, st, Deliver))
  {
  }

  lemma StepKeeps(p: Primitive, st: Session, op: Op)
    requires Inv(p, st) && Legal(p, st, op)
    ensures Inv(p, Next(p, st, op))
  {
    match op
    case Update(m) => PushKeeps(p, st, m, TAG_MESSAGE);
    case Finalize(m) => PushKeeps(p, st, m, TAG_FINAL);
    case Deliver => if |st.delivered| < |st.sent| { DeliverSucceeds(p, st); }
    case Foreign(c) =>
  }

  /** For every interleaving of pushes, pulls and rejected foreign pulls: what was
      delivered is, in order, what was pushed, up to the chunks in flight; each chunk is
      17 bytes longer than its message; the chunks are messages and at most one final one,
      the last; and the decryptor is finished exactly once it has pulled that. */
  lemma {:induction false} SessionsStayInStep(p: Primitive, st: Session, ops: seq<Op>)
    requires Inv(p, st) && LegalRun(p, st, ops)
    ensures var end := Run(p, st, ops);
      && Inv(p, end)
      && end.delivered <= end.pushed
      && (forall i :: 0 <= i < |end.sent| ==> |end.sent[i]| == |end.pushed[i].0| + ABYTES)
      && Grammar(end.pushed, end.enc.finalized)
      && (end.dec.finalized <==> end.delivered != [] && end.delivered[|end.delivered| - 1].1 == TAG_FINAL)
      && (end.dec.finalized ==> end.delivered == end.pushed)
    decreases |ops|
  {
    if ops != [] {
      StepKeeps(p, st, ops[0]);
      SessionsStayInStep(p, Next(p, st, ops[0]), ops[1..]);
    }
  }

  /** A session begins in step when the decryptor gets the encryptor's key and header. */
  lemma SessionBegins(p: Primitive, key: bytes, header: Header)
    requires |key| == KEYBYTES
    ensures p.initPull(key, header).Some? && Inv(p, Start(p.initPull(key, header).value))
  {
  }

  /** Whatever foreign chunks come in between, pulling the chunks in flight delivers all
      that was pushed. */
  lemma {:induction false} DrainDeliversAll(p: Primitive, st: Session)
    requires Inv(p, st)
    ensures var end := Run(p, st, Repeat(Deliver, |st.sent| - |st.delivered|));
      end.delivered == end.pushed == st.pushed && end.dec.finalized == st.enc.finalized
    decreases |st.sent| - |st.delivered|
  {
    var n := |st.sent| - |st.delivered|;
    if n == 0 {
      assert Repeat(Deliver, 0) == [];
    } else {
      DeliverSucceeds(p, st);
      assert Repeat(Deliver, n)[1..] == Repeat(Deliver, n - 1);
      DrainDeliversAll(p, Next(p, st, Deliver));
    }
  }

  /** What a primitive that never fails to push has to accept: everything up to the first
      FINAL chunk. */
  function Accepted(ops: seq<Op>, finished: bool): seq<(bytes, byte)> {
    if ops == [] || finished then []
    else match ops[0]
      case Update(m) => [(m, 0)] + Accepted(ops[1..], false)
      case Finalize(m) => [(m, 3)]
      case _ => Accepted(ops[1..], false)
  }

  ghost predicate AlwaysPushes(p: Primitive) {
    forall s: Inner, m: bytes, t: byte :: p.push(s, m, t).Some?
  }

  lemma {:induction false} PushesAreKept(p: Primitive, st: Session, ops: seq<Op>)
    requires AlwaysPushes(p)
    ensures Run(p, st, ops).pushed == st.pushed + Accepted(ops, st.enc.finalized)
    decreases |ops|
  {
    if ops != [] {
      PushesAreKept(p, Next(p, st, ops[0]), ops[1..]);
      assert st.enc.finalized ==> Next(p, st, ops[0]).enc == st.enc;
    }
  }

  /** Everything that is pushed arrives: whatever run came before, foreign chunks included,
      pulling what is in flight has delivered every message, with its tag, up to the FINAL
      one. */
  lemma EverythingArrives(p: Primitive, st: Session, ops: seq<Op>)
    requires AlwaysPushes(p) && Inv(p, st) && LegalRun(p, st, ops)
    ensures var mid := Run(p, st, ops);
      && |mid.delivered| <= |mid.sent|
      && Run(p, mid, Repeat(Deliver, |mid.sent| - |mid.delivered|)).delivered
           == st.pushed + Accepted(ops, st.enc.finalized)
  {
    SessionsStayInStep(p, st, ops);
    PushesAreKept(p, st, ops);
    DrainDeliversAll(p, Run(p, st, ops));
  }

  /** A foreign pull changes nothing that a later operation could see. */
  lemma ForeignIsInvisible(p: Primitive, st: Session, c: bytes, ops: seq<Op>)
    requires Legal(p, st, Foreign(c))
    ensures Run(p, st, [Foreign(c)] + ops) == Run(p, st, ops)
  {
  }

  /** A client that carries out such a run on an encryptor and a decryptor object. */
  method Converse(p: Primitive, enc: Encryptor, dec: Decryptor, ops: seq<Op>)
    returns (sent: seq<bytes>, got: seq<(bytes, byte)>, ghost pushed: seq<(bytes, byte)>)
    requires enc.View() == dec.View() && !enc.finalized
    requires LegalRun(p, Start(enc.inner), ops)
    modifies enc, dec
    ensures Session(enc.View(), dec.View(), sent, pushed, got) == Run(p, Start(old(enc.inner)), ops)
    ensures got <= pushed && |sent| == |pushed| && Grammar(pushed, enc.finalized)
    ensures dec.finalized <==> enc.finalized && got == pushed
  {
    sent, got, pushed := [], [], [];
    ghost var start := Start(enc.inner);
    assert Inv(p, start);
    SessionsStayInStep(p, start, ops);
    for n := 0 to |ops|
      invariant Run(p, Session(enc.View(), dec.View(), sent, pushed, got), ops[n..]) == Run(p, start, ops)
      invariant LegalRun(p, Session(enc.View(), dec.View(), sent, pushed, got), ops[n..])
    {
      assert ops[n..][0] == ops[n] && ops[n..][1..] == ops[n + 1..];
      sent, got, pushed := Perform(p, enc, dec, ops[n], sent, got, pushed);
    }
  }

  method Perform(p: Primitive, enc: Encryptor, dec: Decryptor, op: Op,
                 sent: seq<bytes>, got: seq<(bytes, byte)>, ghost pushed: seq<(bytes, byte)>)
    returns (sent': seq<bytes>, got': seq<(bytes, byte)>, ghost pushed': seq<(bytes, byte)>)
    modifies enc, dec
    ensures Session(enc.View(), dec.View(), sent', pushed', got')
         == Next(p, Session(old(enc.View()), old(dec.View()), sent, pushed, got), op)
  {
    sent', got', pushed' := sent, got, pushed;
    match op
    case Update(m) =>
      var c := enc.Update(p, m);
      if c.Ok? { sent', pushed' := sent + [c.value], pushed + [(m, TAG_MESSAGE)]; }
    case Finalize(m) =>
      var c := enc.Finalize(p, m);
      if c.Ok? { sent', pushed' := sent + [c.value], pushed + [(m, TAG_FINAL)]; }
    case Deliver =>
      if |got| < |sent| {
        var x := dec.Pull(p, sent[|got|]);
        if x.Ok? { got' := got + [x.value]; }
      }
    case Foreign(c) =>
      var x := dec.Pull(p, c);
      if x.Ok? { got' := got + [x.value]; }
  }
}

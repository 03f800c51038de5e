/** String: a character buffer that keeps a terminator after its text. */
module SecureString {
  import opened Prelude

  const NUL: char := '\0'

  predicate Unterminated(v: seq<char>) {
    v == [] || v[|v| - 1] != NUL
  }

  class SecureString {
    var vec: seq<char>

    ghost predicate Valid()
      reads this
    {
      vec != [] && vec[|vec| - 1] == NUL
    }

    /** The text without its terminator. It may contain further NULs. */
    ghost function Text(): string
      requires Valid()
      reads this
    {
      vec[..|vec| - 1]
    }

    /** String(init_cap): capacity is reserved, the text is empty. */
    constructor (initCap: nat)
      ensures Valid() && Text() == [] && vec == ['\0']
    {
      vec := [NUL];
    }

    /** String(vector&&). The terminator test looks at the vector that was just moved
        from, so a terminator is always added. The text is the vector; storage is as
        documented unless the vector already ended in a terminator. */
    constructor Adopt(v: seq<char>)
      ensures Valid() && Text() == v
      ensures vec == (if Unterminated(v) then v + [NUL] else v) <==> Unterminated(v)
    {
      var moved: seq<char> := [];
      vec := v;
      if Unterminated(moved) {
        vec := v + [NUL];
      }
    }

    method Size() returns (n: nat)
      requires Valid()
      ensures n == |Text()|
    {
      n := |vec| - 1;
    }

    method At(idx: nat) returns (r: Result<char>)
      requires Valid()
      ensures r == if idx < |Text()| then Ok(Text()[idx]) else Err(OutOfRange)
    {
      if idx >= |vec| - 1 {
        return Err(OutOfRange);
      }
      r := Ok(vec[idx]);
    }

    method Back() returns (r: Result<char>)
      requires Valid()
      ensures r == if Text() == [] then Err(EmptyString) else Ok(Text()[|Text()| - 1])
    {
      if |vec| - 1 == 0 {
        return Err(EmptyString);
      }
      r := Ok(vec[|vec| - 1 - 1]);
    }

    method Equals(other: SecureString) returns (r: bool)
      requires Valid() && other.Valid()
      ensures r <==> Text() == other.Text()
    {
      assert vec == Text() + [NUL] && other.vec == other.Text() + [NUL];
      if |vec| != |other.vec| {
        return false;
      }
      r := vec == other.vec;
    }

    method PushBack(b: char)
      requires Valid()
      modifies this
      ensures Valid() && Text() == old(Text()) + [b]
    {
      vec := vec[|vec| - 1 := b];
      vec := vec + [NUL];
    }

    /** Nothing on an empty string. */
    method PopBack()
      requires Valid()
      modifies this
      ensures Valid() && Text() == if old(Text()) == [] then [] else old(Text())[..|old(Text())| - 1]
    {
      if |vec| > 1 {
        vec := vec[..|vec| - 1];
        vec := vec[|vec| - 1 := NUL];
      }
    }

    method Wipe()
      requires Valid()
      modifies this
      ensures Valid() && Text() == []
    {
      if vec != [] {
        vec := Repeat(NUL, |vec|);
        vec := vec[..1];
        vec := vec[0 := NUL];
      }
    }

    method Swap(other: SecureString)
      requires Valid() && other.Valid()
      modifies this, other
      ensures Valid() && other.Valid()
      ensures Text() == old(other.Text()) && other.Text() == old(Text())
    {
      vec, other.vec := other.vec, vec;
    }
  }

  // --------------------------------------------------------- whole histories

  datatype Op = Push(c: char) | Pop | Wipe | Swap

  /** What an operation does to two plain sequences of characters. */
  function Apply(st: (string, string), op: Op): (string, string) {
    match op
    case Push(c) => (st.0 + [c], st.1)
    case Pop => (if st.0 == [] then [] else st.0[..|st.0| - 1], st.1)
    case Wipe => ([], st.1)
    case Swap => (st.1, st.0)
  }

  function ApplyAll(st: (string, string), ops: seq<Op>): (string, string)
    decreases |ops|
  {
    if ops == [] then st else ApplyAll(Apply(st, ops[0]), ops[1..])
  }

  /** A history of operations on two strings is the same history on plain sequences, and
      both strings are terminated throughout. */
  method Replay(a: SecureString, b: SecureString, ops: seq<Op>)
    requires a != b && a.Valid() && b.Valid()
    modifies a, b
    ensures a.Valid() && b.Valid()
    ensures (a.Text(), b.Text()) == ApplyAll((old(a.Text()), old(b.Text())), ops)
  {
    ghost var start := (a.Text(), b.Text());
    for i := 0 to |ops|
      invariant a.Valid() && b.Valid()
      invariant ApplyAll((a.Text(), b.Text()), ops[i..]) == ApplyAll(start, ops)
    {
      assert ops[i..][0] == ops[i] && ops[i..][1..] == ops[i + 1..];
      match ops[i] {
        case Push(c) => a.PushBack(c);
        case Pop => a.PopBack();
        case Wipe => a.Wipe();
        case Swap => a.Swap(b);
      }
    }
  }

  // ------------------------------------------------------------------ getline

  /** The position of the first c, or the length. */
  function Find(s: string, c: char): (n: nat)
    ensures n <= |s| && c !in s[..n] && (n < |s| ==> s[n] == c)
  {
    if s == [] then 0
    else if s[0] == c then 0
    else
      var n := Find(s[1..], c);
      assert s[..n + 1] == [s[0]] + s[1..][..n];
      n + 1
  }

  /** The characters getline ignores up front. avail: the stream has some buffered. */
  function Skipped(s: string, avail: bool): (n: nat)
    ensures n <= |s|
  {
    if s == [] || !(s[0] == '\n' || (avail && s[0] == '\r')) then 0
    else
      var n := Find(s, '\n');
      if n < |s| then n + 1 else n
  }

  /** If it skips at all, it skips to the end of the first line, or of the input. */
  lemma SkipEndsTheLine(s: string, avail: bool)
    ensures var n := Skipped(s, avail);
      if "\n" <= s || ("\r" <= s && avail) then
        if '\n' in s then n > 0 && s[n - 1] == '\n' && '\n' !in s[..n - 1] else n == |s|
      else n == 0
  {
  }

  /** The characters it is documented to: one leading line break, if that delimits. */
  function DocumentedSkip(s: string, delim: char): nat {
    if delim != '\n' then 0
    else if "\n" <= s then 1
    else if "\r\n" <= s then 2
    else 0
  }

  /** getline: reads up to and past the delimiter. */
  method Getline(s: string, str: SecureString, delim: char, avail: bool) returns (rest: string)
    requires str.Valid()
    modifies str
    ensures str.Valid() && delim !in str.Text()
    ensures s[Skipped(s, avail)..] == str.Text() + [delim] + rest
      || (s[Skipped(s, avail)..] == str.Text() && rest == [])
  {
    str.Wipe();
    var input := s;
    if input != [] && (input[0] == '\n' || (avail && input[0] == '\r')) {
      var n := Find(input, '\n');
      input := if n < |input| then input[n + 1..] else [];
    }
    assert input == s[Skipped(s, avail)..];
    rest := input;
    while rest != []
      invariant str.Valid() && delim !in str.Text() && input == str.Text() + rest
      decreases |rest|
    {
      var c := rest[0];
      ReadOne(input, str.Text(), rest);
      rest := rest[1..];
      if c == delim {
        return;
      }
      str.PushBack(c);
    }
  }

  lemma ReadOne(input: string, text: string, rest: string)
    requires input == text + rest && rest != []
    ensures input == text + [rest[0]] + rest[1..]
  {
  }

  /** The skipping is as documented exactly when: the line break that leads the input is
      the delimiter; or a leading "\r\n" is looked at just when that is; or no leading
      carriage return on its own is looked at. */
  lemma SkipAsDocumented(s: string, delim: char, avail: bool)
    ensures Skipped(s, avail) == DocumentedSkip(s, delim) <==>
      if "\n" <= s then delim == '\n'
      else if "\r\n" <= s then avail == (delim == '\n')
      else if "\r" <= s then !avail
      else true
  {
    if "\r\n" <= s {
      assert s[1] == '\n';
      assert Find(s, '\n') == 1 by {
        assert s[..Find(s, '\n')] != [] ==> Find(s, '\n') >= 1;
        assert Find(s[1..], '\n') == 0;
      }
    }
  }

  /** A carriage return on its own costs the whole line it starts. */
  lemma LoneReturnLosesALine()
    ensures Skipped("\rab\ncd", true) == 4 && DocumentedSkip("\rab\ncd", '\n') == 0
  {
  }
}

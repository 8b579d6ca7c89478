/** Byte strings, newline-terminated lines, and the specification functions that the
    driver and the server are measured against. */
module Text {
  newtype Byte = b: int | 0 <= b < 256
  type Bytes = seq<Byte>

  const NL: Byte := 10

  datatype Option<+T> = None | Some(value: T)

  /** A complete line: it ends in a newline and holds no other one. */
  predicate IsLine(l: Bytes) {
    |l| > 0 && l[|l| - 1] == NL && NL !in l[..|l| - 1]
  }

  predicate AllLines(ls: seq<Bytes>) {
    forall i :: 0 <= i < |ls| ==> IsLine(ls[i])
  }

  function Flatten(ls: seq<Bytes>): Bytes {
    if ls == [] then [] else ls[0] + Flatten(ls[1..])
  }

  /** The complete lines of a stream, in order, each with its newline. */
  function Lines(s: Bytes): seq<Bytes> {
    if s == [] then []
    else
      var before, last := s[..|s| - 1], s[|s| - 1];
      if last == NL then Lines(before) + [Tail(before) + [NL]] else Lines(before)
  }

  /** What follows the last newline of a stream. */
  function Tail(s: Bytes): Bytes {
    if s == [] || s[|s| - 1] == NL then [] else Tail(s[..|s| - 1]) + [s[|s| - 1]]
  }

  /** The newest n elements of a sequence. */
  function LastN<T>(s: seq<T>, n: nat): seq<T> {
    if |s| <= n then s else s[|s| - n..]
  }

  lemma Assoc<T>(a: seq<T>, b: seq<T>, c: seq<T>)
    ensures (a + b) + c == a + (b + c)
  {
  }

  lemma Whole<T>(s: seq<T>)
    ensures [] + s == s && s[0..] == s
  {
  }

  lemma FlattenCons(l: Bytes, ls: seq<Bytes>)
    ensures Flatten([l] + ls) == l + Flatten(ls)
  {
  }

  lemma {:induction false} FlattenAppend(a: seq<Bytes>, b: seq<Bytes>)
    ensures Flatten(a + b) == Flatten(a) + Flatten(b)
  {
    if a == [] {
      assert a + b == b;
    } else {
      FlattenAppend(a[1..], b);
      assert (a + b)[1..] == a[1..] + b;
      Assoc(a[0], Flatten(a[1..]), Flatten(b));
    }
  }

  lemma FlattenSnoc(a: seq<Bytes>, l: Bytes)
    ensures Flatten(a + [l]) == Flatten(a) + l
  {
    FlattenAppend(a, [l]);
    assert [l][1..] == [];
    assert Flatten([l]) == l + Flatten([]);
  }

  /** One more byte completes a line exactly when it is a newline. */
  lemma LinesSnoc(s: Bytes, b: Byte)
    ensures Lines(s + [b]) == if b == NL then Lines(s) + [Tail(s) + [NL]] else Lines(s)
    ensures Tail(s + [b]) == if b == NL then [] else Tail(s) + [b]
  {
  }

  lemma {:induction false} LinesAreLines(s: Bytes)
    ensures AllLines(Lines(s)) && NL !in Tail(s)
  {
    if s != [] {
      var before := s[..|s| - 1];
      LinesAreLines(before);
      assert (Tail(before) + [NL])[..|Tail(before)|] == Tail(before);
    }
  }

  /** Lines and Tail cut a stream without losing a byte, and only at newlines. */
  lemma {:induction false} LinesTail(s: Bytes)
    ensures Flatten(Lines(s)) + Tail(s) == s
    ensures AllLines(Lines(s))
    ensures NL !in Tail(s)
  {
    LinesAreLines(s);
    if s != [] {
      var before, last := s[..|s| - 1], s[|s| - 1];
      LinesTail(before);
      assert s == before + [last];
      if last == NL {
        FlattenSnoc(Lines(before), Tail(before) + [NL]);
        Assoc(Flatten(Lines(before)), Tail(before), [NL]);
      } else {
        Assoc(Flatten(Lines(before)), Tail(before), [last]);
      }
    }
  }

  /** Only the tail of what came before matters to what comes next. */
  lemma {:induction false} LinesAppend(a: Bytes, b: Bytes)
    ensures Lines(a + b) == Lines(a) + Lines(Tail(a) + b)
    ensures Tail(a + b) == Tail(Tail(a) + b)
  {
    hide Lines, Tail, Flatten;
    if b == [] {
      assert a + b == a;
      assert Tail(a) + b == Tail(a);
      LinesTail(a);
      NoNewline(Tail(a));
    } else {
      var before, last := b[..|b| - 1], b[|b| - 1];
      LinesAppend(a, before);
      assert b == before + [last];
      Assoc(a, before, [last]);
      Assoc(Tail(a), before, [last]);
      LinesSnoc(a + before, last);
      LinesSnoc(Tail(a) + before, last);
    }
  }

  /** A stream without a newline is all tail. */
  lemma {:induction false} NoNewline(s: Bytes)
    requires NL !in s
    ensures Lines(s) == [] && Tail(s) == s
  {
    if s != [] {
      NoNewline(s[..|s| - 1]);
    }
  }

  /** A line is a stream of itself alone. */
  lemma LineAlone(l: Bytes)
    requires IsLine(l)
    ensures Lines(l) == [l] && Tail(l) == []
  {
    var body := l[..|l| - 1];
    NoNewline(body);
    assert l == body + [NL];
    LinesSnoc(body, NL);
  }

  /** Lines and Tail are the only way to cut a stream into lines and a newline-free rest. */
  lemma {:induction false} SplitUnique(ls: seq<Bytes>, t: Bytes)
    requires AllLines(ls) && NL !in t
    ensures Lines(Flatten(ls) + t) == ls
    ensures Tail(Flatten(ls) + t) == t
  {
    if ls == [] {
      assert Flatten(ls) + t == t;
      NoNewline(t);
    } else {
      SplitUnique(ls[1..], t);
      LineInFront(ls[0], Flatten(ls[1..]) + t);
      Assoc(ls[0], Flatten(ls[1..]), t);
    }
  }

  /** A line in front of a stream is its first line. */
  lemma LineInFront(l: Bytes, rest: Bytes)
    requires IsLine(l)
    ensures Lines(l + rest) == [l] + Lines(rest)
    ensures Tail(l + rest) == Tail(rest)
  {
    LineAlone(l);
    LinesAppend(l, rest);
    assert [] + rest == rest;
  }

  /** Pushing onto the newest n: the oldest leaves exactly when n are already held. */
  lemma LastNPush<T>(h: seq<T>, x: T, n: nat)
    requires n > 0
    ensures LastN(h + [x], n) == (if |LastN(h, n)| == n then LastN(h, n)[1..] else LastN(h, n)) + [x]
  {
  }
}

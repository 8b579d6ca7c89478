/** Byte-by-byte line assembly, the specification of aesd_write, and what it computes. */
module LineAssembly {
  import opened Text

  /** The lines completed so far, oldest first, and the line being built. */
  datatype Assembly = Assembly(done: seq<Bytes>, pending: Bytes)

  function Step(a: Assembly, b: Byte): Assembly {
    if b == NL then Assembly(a.done + [a.pending + [b]], []) else Assembly(a.done, a.pending + [b])
  }

  function Absorb(a: Assembly, s: Bytes): Assembly {
    if s == [] then a else Step(Absorb(a, s[..|s| - 1]), s[|s| - 1])
  }

  lemma AbsorbSnoc(a: Assembly, s: Bytes, b: Byte)
    ensures Absorb(a, s + [b]) == Step(Absorb(a, s), b)
  {
  }

  lemma AbsorbEnds(a: Assembly, s: Bytes)
    ensures Absorb(a, s[..0]) == a && Absorb(a, s[..|s|]) == Absorb(a, s)
  {
    assert s[..|s|] == s;
  }

  lemma AbsorbNext(a: Assembly, s: Bytes, k: nat)
    requires k < |s|
    ensures Absorb(a, s[..k + 1]) == Step(Absorb(a, s[..k]), s[k])
  {
    assert s[..k + 1][..k] == s[..k];
  }

  /** How a stream is cut into calls does not matter: write(s) then write(t) is write(s + t). */
  lemma {:induction false} AbsorbAppend(a: Assembly, s: Bytes, t: Bytes)
    ensures Absorb(a, s + t) == Absorb(Absorb(a, s), t)
  {
    if t == [] {
      assert s + t == s;
    } else {
      AbsorbAppend(a, s, t[..|t| - 1]);
      assert t == t[..|t| - 1] + [t[|t| - 1]];
      Assoc(s, t[..|t| - 1], [t[|t| - 1]]);
      AbsorbSnoc(a, s + t[..|t| - 1], t[|t| - 1]);
    }
  }

  function AbsorbAll(a: Assembly, calls: seq<Bytes>): Assembly
    decreases |calls|
  {
    if calls == [] then a else AbsorbAll(Absorb(a, calls[0]), calls[1..])
  }

  /** While no newline is pending, assembly computes Lines and Tail of the stream. */
  lemma {:induction false} AbsorbIsLines(a: Assembly, s: Bytes)
    requires NL !in a.pending
    ensures Absorb(a, s) == Assembly(a.done + Lines(a.pending + s), Tail(a.pending + s))
  {
    if s == [] {
      NoNewline(a.pending);
      assert a.pending + s == a.pending;
    } else {
      var before, last := s[..|s| - 1], s[|s| - 1];
      var x := a.pending + before;
      AbsorbIsLines(a, before);
      assert a.pending + s == x + [last];
      LinesSnoc(x, last);
      Assoc(a.done, Lines(x), [Tail(x) + [NL]]);
    }
  }

  /** A whole line written while nothing is pending completes itself alone. */
  lemma WholeLine(history: seq<Bytes>, line: Bytes)
    requires IsLine(line)
    ensures Absorb(Assembly(history, []), line) == Assembly(history + [line], [])
  {
    AbsorbIsLines(Assembly(history, []), line);
    LineAlone(line);
    assert [] + line == line;
  }

  /** Any split of a stream into calls, from the empty device: the completed lines are
      exactly Lines(stream), the pending bytes exactly Tail(stream). */
  lemma CallsAbsorbStream(a: Assembly, calls: seq<Bytes>)
    requires NL !in a.pending
    ensures AbsorbAll(a, calls)
         == Assembly(a.done + Lines(a.pending + Flatten(calls)), Tail(a.pending + Flatten(calls)))
  {
    AbsorbAllIsAbsorb(a, calls);
    AbsorbIsLines(a, Flatten(calls));
  }

  lemma {:induction false} AbsorbAllIsAbsorb(a: Assembly, calls: seq<Bytes>)
    ensures AbsorbAll(a, calls) == Absorb(a, Flatten(calls))
    decreases |calls|
  {
    if calls != [] {
      AbsorbAllIsAbsorb(Absorb(a, calls[0]), calls[1..]);
      AbsorbAppend(a, calls[0], Flatten(calls[1..]));
    }
  }

  /** What every pushed entry is: non-empty, its last byte a newline. */
  predicate Terminated(l: Bytes) {
    |l| > 0 && l[|l| - 1] == NL
  }

  predicate AllTerminated(ls: seq<Bytes>) {
    forall i :: 0 <= i < |ls| ==> Terminated(ls[i])
  }
}
